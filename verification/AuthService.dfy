/** The session operations of the auth service, one request at a time. */
module AuthService {
  import opened Wrappers
  import opened TokenFamilies

  datatype Error = InvalidToken | Inactive

  /** Every family has at most one live token. */
  ghost predicate OnePerFamily(tokens: map<Hash, Token>) {
    forall g, h | g in tokens && h in tokens && Live(tokens[g]) && Live(tokens[h]) ::
      tokens[g].family == tokens[h].family ==> g == h
  }

  ghost predicate Ended(tokens: map<Hash, Token>, f: Family) {
    forall h :: h in tokens && tokens[h].family == f ==> !Live(tokens[h])
  }

  /** The token is known and has not expired. */
  predicate Usable(tokens: map<Hash, Token>, token: Hash, now: Time) {
    token in tokens && now < tokens[token].expires
  }

  class Service {
    var tokens: map<Hash, Token>

    constructor ()
      ensures tokens == map[]
    {
      tokens := map[];
    }

    method RevokeFamily(f: Family, now: Time)
      modifies this
      ensures tokens == Revoked(old(tokens), f, now)
      ensures IsRevoked(old(tokens), tokens, f, now)
    {
      var left := tokens.Keys;
      while left != {}
        invariant left <= tokens.Keys == old(tokens).Keys
        invariant forall h :: h in left ==> tokens[h] == old(tokens)[h]
        invariant forall h :: h in tokens && h !in left ==> tokens[h] == Revoked(old(tokens), f, now)[h]
        decreases |left|
      {
        var h :| h in left;
        if tokens[h].family == f && tokens[h].revoked.None? {
          tokens := tokens[h := tokens[h].(revoked := Some(now))];
        }
        left := left - {h};
      }
    }

    method Issue(f: Family, user: UserId, now: Time, h: Hash) returns (token: Hash)
      requires h !in tokens
      modifies this
      ensures tokens == Issued(old(tokens), f, user, h, now) && token == h
      ensures h in tokens && IsNew(tokens[h], f, user, now) && SameBut(old(tokens), tokens, h)
    {
      tokens := tokens[h := Token(f, user, now + REFRESH_TTL, None, None)];
      token := h;
    }

    /** A login of a checked user starts a family of its own. */
    method Login(f: Family, user: UserId, now: Time, h: Hash) returns (token: Hash)
      requires h !in tokens && (forall g :: g in tokens ==> tokens[g].family != f) && OnePerFamily(tokens)
      modifies this
      ensures tokens == Issued(old(tokens), f, user, h, now) && token == h
      ensures h in tokens && IsNew(tokens[h], f, user, now) && SameBut(old(tokens), tokens, h)
      ensures forall t: Time :: Usable(tokens, token, t) <==> t < now + 30 * 24 * 3600 * 1000
      ensures OnePerFamily(tokens)
      ensures forall g :: g != f && Ended(old(tokens), g) ==> Ended(tokens, g)
    {
      token := Issue(f, user, now, h);
    }

    /**
     Rotates a live token; a spent one that has not expired ends its family. `active`: the user and the tenant are.
     */
    method Refresh(token: Hash, now: Time, active: bool, h: Hash) returns (r: Result<Hash, Error>)
      requires h !in tokens && OnePerFamily(tokens)
      modifies this
      ensures OnePerFamily(tokens)
      ensures !Usable(old(tokens), token, now) ==> r == Err(InvalidToken) && tokens == old(tokens)
      ensures Usable(old(tokens), token, now) && !Live(old(tokens)[token]) ==>
        r == Err(InvalidToken) && Closed(old(tokens), token, now)
      ensures Usable(old(tokens), token, now) && Live(old(tokens)[token]) ==>
        Spent(old(tokens), token, now, active, h, r)
      ensures r.Ok? <==> Usable(old(tokens), token, now) && Live(old(tokens)[token]) && active
      ensures r.Ok? ==> r.value == h && Refreshed(old(tokens), token, now, h)
      ensures r.Ok? ==> forall t: Time :: Usable(tokens, h, t) <==> t < now + 30 * 24 * 3600 * 1000
      ensures forall f :: Ended(old(tokens), f) ==> Ended(tokens, f)
    {
      if token !in tokens || tokens[token].expires <= now {
        return Err(InvalidToken);
      }
      var row := tokens[token];
      if !Live(row) {
        RevokeFamily(row.family, now);
        return Err(InvalidToken);
      }
      tokens := tokens[token := row.(rotated := Some(now))];
      assert Ended(tokens, row.family);
      if !active {
        return Err(Inactive);
      }
      var next := Issue(row.family, row.user, now, h);
      r := Ok(next);
    }

    /** The old token is spent and a new one of its family and user is there; nothing else has changed. */
    ghost predicate Refreshed(was: map<Hash, Token>, token: Hash, now: Time, h: Hash)
      requires token in was
      reads this
    {
      && token in tokens && IsSpent(was[token], tokens[token], now)
      && h in tokens && IsNew(tokens[h], was[token].family, was[token].user, now)
      && forall g :: g != h && g != token ==> (g in tokens <==> g in was) && (g in was ==> tokens[g] == was[g])
    }

    /** The token's family is revoked, and ended. */
    ghost predicate Closed(was: map<Hash, Token>, token: Hash, now: Time)
      requires token in was
      reads this
    {
      && tokens == Revoked(was, was[token].family, now) && IsRevoked(was, tokens, was[token].family, now)
      && Ended(tokens, was[token].family)
    }

    /** What a refresh of a live token did. */
    ghost predicate Spent(was: map<Hash, Token>, token: Hash, now: Time, active: bool, h: Hash, r: Result<Hash, Error>)
      requires token in was
      reads this
    {
      var rotated := Rotated(was, token, now).0;
      if active then r == Ok(h) && tokens == Issued(rotated, was[token].family, was[token].user, h, now)
      else r == Err(Inactive) && tokens == rotated
    }

    /** Ends the session a token belongs to, if it is the caller's. */
    method Logout(user: UserId, token: Hash, now: Time)
      requires OnePerFamily(tokens)
      modifies this
      ensures OnePerFamily(tokens)
      ensures token in old(tokens) && old(tokens)[token].user == user ==> Closed(old(tokens), token, now)
      ensures token !in old(tokens) || old(tokens)[token].user != user ==> tokens == old(tokens)
      ensures forall f :: Ended(old(tokens), f) ==> Ended(tokens, f)
    {
      if token in tokens && tokens[token].user == user {
        RevokeFamily(tokens[token].family, now);
      }
    }
  }
}
