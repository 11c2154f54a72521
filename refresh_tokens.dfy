// RefreshTokenServiceImplement: rotating, single-use refresh tokens kept in
// the refresh_token table.  Creating a token revokes every earlier token of
// its user; a refresh consumes the presented token and issues a new pair;
// logout revokes the presented token and every token of the user.  Token
// strings and row ids (JwtProvider.createRefreshToken, UUID.randomUUID)
// are passed in; JwtProvider.create is the function `sign`.

module RefreshTokens {
  import opened Common
  import opened Directory

  /** The refresh-token lifetime: seven days in milliseconds.  The source
      computes it in `int` arithmetic; 604 800 000 fits, so nothing wraps. */
  const ValidityMillis: int := 7 * 24 * 60 * 60 * 1000

  /** The keys of refreshAccessToken's result map. */
  const AccessTokenKey: string := "accessToken"
  const RefreshTokenKey: string := "refreshToken"

  /** A row of the refresh_token table; `user` is the owning UserEntity. */
  datatype RefreshToken = RefreshToken(id: string, user: User, token: string, expiryDate: int, revoked: bool)

  /** isExpired: the expiry instant lies before now. */
  predicate Expired(t: RefreshToken, now: int)
  {
    t.expiryDate < now
  }

  /** The primary-key constraint of the table. */
  predicate UniqueIds(ts: seq<RefreshToken>)
  {
    forall i, j :: 0 <= i < j < |ts| ==> ts[i].id != ts[j].id
  }

  /** The tokens of a user that were not revoked. */
  function Live(ts: seq<RefreshToken>, userId: string): set<RefreshToken>
  {
    set t | t in ts && t.user.userId == userId && !t.revoked
  }

  /** save: the row with the same id is replaced, otherwise the row is
      appended. */
  function Saved(ts: seq<RefreshToken>, t: RefreshToken): (r: seq<RefreshToken>)
    ensures t in r
    ensures UniqueIds(ts) ==> UniqueIds(r)
    ensures (forall x :: x in ts ==> x.id != t.id) ==> r == ts + [t]
  {
    match FirstIndex(ts, (x: RefreshToken) => x.id == t.id)
    case Some(i) =>
      assert ts[i := t][i] == t;
      ts[i := t]
    case None => ts + [t]
  }

  /** delete: the row with the given id is removed. */
  function Deleted(ts: seq<RefreshToken>, id: string): (r: seq<RefreshToken>)
    ensures forall x :: x in r <==> x in ts && x.id != id
    ensures UniqueIds(ts) ==> UniqueIds(r)
  {
    if ts == [] then []
    else
      var rest := Deleted(ts[1..], id);
      assert forall x :: x in ts[1..] ==> x in ts;
      if ts[0].id != id then [ts[0]] + rest else rest
  }

  /** findByToken: the row holding the token string. */
  function ByToken(ts: seq<RefreshToken>, token: string): (r: Option<RefreshToken>)
    ensures r.Some? ==> r.value in ts && r.value.token == token
    ensures r.None? ==> forall t :: t in ts ==> t.token != token
  {
    FindFirst(ts, (t: RefreshToken) => t.token == token)
  }

  /** findByUser, read as every token of the user (the repository declares
      it as returning one Optional, the service uses it as a list). */
  function TokensOf(ts: seq<RefreshToken>, userId: string): seq<RefreshToken>
  {
    Filter(ts, (t: RefreshToken) => t.user.userId == userId)
  }

  /** The table after every token of the user was set revoked and saved. */
  function RevokedFor(ts: seq<RefreshToken>, userId: string): seq<RefreshToken>
  {
    seq(|ts|, k requires 0 <= k < |ts| => if ts[k].user.userId == userId then ts[k].(revoked := true) else ts[k])
  }

  /** The table after the row holding the token string, if any, was set
      revoked and saved. */
  function RevokedToken(ts: seq<RefreshToken>, token: string): seq<RefreshToken>
  {
    match ByToken(ts, token)
    case None => ts
    case Some(t) => Saved(ts, t.(revoked := true))
  }

  /** refreshAccessToken's result map. */
  datatype Refreshed = Refreshed(accessToken: string, refreshToken: string)

  // ---------------------------------------------------------------------
  // The operations on the table

  /** createRefreshToken: the user must exist; every earlier token of the
      user is revoked, then the new token, valid for seven days, saved. */
  function CreateRefreshTokenSpec(ts: seq<RefreshToken>, users: map<string, User>, userId: string,
                                  id: string, tokenString: string, now: int): (seq<RefreshToken>, Result<RefreshToken, Exception>)
  {
    if userId !in users then (ts, Err(Runtime))
    else
      var issued := RefreshToken(id, users[userId], tokenString, now + ValidityMillis, false);
      (Saved(RevokedFor(ts, userId), issued), Ok(issued))
  }

  /** verifyExpiration: an expired or revoked token is deleted and refused. */
  function VerifyExpirationSpec(ts: seq<RefreshToken>, t: RefreshToken, now: int): (seq<RefreshToken>, bool)
  {
    if Expired(t, now) || t.revoked then (Deleted(ts, t.id), false)
    else (ts, true)
  }

  /** refreshAccessToken: an unknown or refused token gives no result; a
      valid one is revoked, an access token signed for its user and role,
      and a new refresh token created for the user. */
  function RefreshAccessTokenSpec(ts: seq<RefreshToken>, users: map<string, User>, sign: (string, string) -> string,
                                  refreshToken: string, now: int, id: string, tokenString: string)
    : (seq<RefreshToken>, Result<Option<Refreshed>, Exception>)
  {
    match ByToken(ts, refreshToken)
    case None => (ts, Ok(None))
    case Some(t) =>
      var (ts1, valid) := VerifyExpirationSpec(ts, t, now);
      if !valid then (ts1, Ok(None))
      else
        var ts2 := Saved(ts1, t.(revoked := true));
        var accessToken := sign(t.user.userId, t.user.role);
        var (ts3, created) := CreateRefreshTokenSpec(ts2, users, t.user.userId, id, tokenString, now);
        match created
        case Err(x) => (ts3, Err(x))
        case Ok(issued) => (ts3, Ok(Some(Refreshed(accessToken, issued.token))))
  }

  /** logout: for a known user, the presented token and then every token of
      the user are revoked; an unknown user changes nothing. */
  function LogoutSpec(ts: seq<RefreshToken>, users: map<string, User>, userId: string, refreshToken: string): seq<RefreshToken>
  {
    if userId !in users then ts
    else RevokedFor(RevokedToken(ts, refreshToken), userId)
  }

  /** A row as the revoking loop leaves it once the rows in `done` were
      revoked. */
  function Mark(t: RefreshToken, done: set<RefreshToken>): RefreshToken
  {
    if t in done then t.(revoked := true) else t
  }

  /** `cur` is `ts` with exactly the rows in `done` revoked. */
  predicate MarkedBy(cur: seq<RefreshToken>, ts: seq<RefreshToken>, done: set<RefreshToken>)
  {
    |cur| == |ts| && forall k :: 0 <= k < |ts| ==> cur[k] == Mark(ts[k], done)
  }

  /** The revoking loop after its first i rounds over the user's tokens:
      exactly the tokens of `done` are revoked, and those are the first i. */
  predicate Revoking(ts: seq<RefreshToken>, cur: seq<RefreshToken>, userId: string, done: set<RefreshToken>, i: nat)
  {
    && i <= |TokensOf(ts, userId)|
    && MarkedBy(cur, ts, done)
    && (forall x :: x in done ==> x.user.userId == userId)
    && (forall j :: 0 <= j < i ==> TokensOf(ts, userId)[j] in done)
  }

  /** Saving a row whose id first occurs at index k replaces that row. */
  lemma SavedAt(ts: seq<RefreshToken>, t: RefreshToken, k: nat)
    requires k < |ts| && ts[k].id == t.id && forall j :: 0 <= j < k ==> ts[j].id != t.id
    ensures Saved(ts, t) == ts[k := t]
  {
    var r := FirstIndex(ts, (x: RefreshToken) => x.id == t.id);
    assert r.Some?;
  }

  /** Saving the revoked copy of a row replaces that row in place. */
  lemma MarkStep(ts: seq<RefreshToken>, cur: seq<RefreshToken>, done: set<RefreshToken>, token: RefreshToken)
    requires UniqueIds(ts) && token in ts && MarkedBy(cur, ts, done)
    ensures MarkedBy(Saved(cur, token.(revoked := true)), ts, done + {token})
  {
    var k0 :| 0 <= k0 < |ts| && ts[k0] == token;
    assert forall k :: 0 <= k < |ts| ==> cur[k].id == ts[k].id;
    SavedAt(cur, token.(revoked := true), k0);
    var next := cur[k0 := token.(revoked := true)];
    forall k | 0 <= k < |ts| ensures next[k] == Mark(ts[k], done + {token}) {
      if k != k0 {
        assert ts[k].id != token.id;
      }
    }
  }

  /** One round of the revoking loop over the user's tokens. */
  lemma RevokeStep(ts: seq<RefreshToken>, cur: seq<RefreshToken>, userId: string, done: set<RefreshToken>, i: nat)
    requires UniqueIds(ts) && Revoking(ts, cur, userId, done, i) && i < |TokensOf(ts, userId)|
    ensures var token := TokensOf(ts, userId)[i];
            Revoking(ts, Saved(cur, token.(revoked := true)), userId, done + {token}, i + 1)
  {
    var tokens := TokensOf(ts, userId);
    var token := tokens[i];
    assert token in ts && token.user.userId == userId;
    MarkStep(ts, cur, done, token);
  }

  /** Once every token of the user has been through the loop, the table is
      RevokedFor. */
  lemma RevokeAllMarks(ts: seq<RefreshToken>, cur: seq<RefreshToken>, userId: string, done: set<RefreshToken>)
    requires Revoking(ts, cur, userId, done, |TokensOf(ts, userId)|)
    ensures cur == RevokedFor(ts, userId)
  {
    var tokens := TokensOf(ts, userId);
    forall k | 0 <= k < |ts| ensures cur[k] == RevokedFor(ts, userId)[k] {
      if ts[k].user.userId == userId {
        assert ts[k] in tokens;
      }
    }
  }

  // ---------------------------------------------------------------------
  // The repository and the service

  /** RefreshTokenRepository: the table in insertion order. */
  class RefreshTokenRepository {
    var tokens: seq<RefreshToken>

    constructor ()
      ensures tokens == []
    {
      tokens := [];
    }

    method Save(t: RefreshToken)
      modifies this
      ensures tokens == Saved(old(tokens), t)
    {
      tokens := Saved(tokens, t);
    }

    method Delete(t: RefreshToken)
      modifies this
      ensures tokens == Deleted(old(tokens), t.id)
    {
      tokens := Deleted(tokens, t.id);
    }
  }

  class RefreshTokenService {
    const repo: RefreshTokenRepository
    const org: Org
    const sign: (string, string) -> string

    constructor (repo: RefreshTokenRepository, org: Org, sign: (string, string) -> string)
      ensures this.repo == repo && this.org == org && this.sign == sign
    {
      this.repo := repo;
      this.org := org;
      this.sign := sign;
    }

    /** The forEach that revokes and saves every token of the user. */
    method RevokeAll(userId: string)
      requires UniqueIds(repo.tokens)
      modifies repo
      ensures repo.tokens == RevokedFor(old(repo.tokens), userId)
    {
      ghost var ts := repo.tokens;
      var tokens := TokensOf(repo.tokens, userId);
      ghost var done: set<RefreshToken> := {};
      var i := 0;
      while i < |tokens|
        invariant Revoking(ts, repo.tokens, userId, done, i)
      {
        var token := tokens[i];
        RevokeStep(ts, repo.tokens, userId, done, i);
        repo.Save(token.(revoked := true));
        done := done + {token};
        i := i + 1;
      }
      RevokeAllMarks(ts, repo.tokens, userId, done);
    }

    method CreateRefreshToken(userId: string, id: string, tokenString: string, now: int)
      returns (r: Result<RefreshToken, Exception>)
      requires UniqueIds(repo.tokens)
      modifies repo
      ensures (repo.tokens, r) == CreateRefreshTokenSpec(old(repo.tokens), org.users, userId, id, tokenString, now)
    {
      if userId !in org.users {
        return Err(Runtime);
      }
      var user := org.users[userId];
      RevokeAll(userId);
      var refreshToken := RefreshToken(id, user, tokenString, now + ValidityMillis, false);
      repo.Save(refreshToken);
      r := Ok(refreshToken);
    }

    method VerifyExpiration(token: RefreshToken, now: int) returns (valid: bool)
      modifies repo
      ensures (repo.tokens, valid) == VerifyExpirationSpec(old(repo.tokens), token, now)
    {
      if Expired(token, now) || token.revoked {
        repo.Delete(token);
        return false;
      }
      valid := true;
    }

    method RefreshAccessToken(refreshToken: string, now: int, id: string, tokenString: string)
      returns (r: Result<Option<Refreshed>, Exception>)
      requires UniqueIds(repo.tokens)
      modifies repo
      ensures (repo.tokens, r) ==
              RefreshAccessTokenSpec(old(repo.tokens), org.users, sign, refreshToken, now, id, tokenString)
    {
      var tokenOpt := ByToken(repo.tokens, refreshToken);
      if tokenOpt.None? {
        return Ok(None);
      }
      var valid := VerifyExpiration(tokenOpt.value, now);
      if !valid {
        return Ok(None);
      }
      var tokenEntity := tokenOpt.value;
      repo.Save(tokenEntity.(revoked := true));
      var newAccessToken := sign(tokenEntity.user.userId, tokenEntity.user.role);
      var newRefreshToken := CreateRefreshToken(tokenEntity.user.userId, id, tokenString, now);
      if newRefreshToken.Err? {
        return Err(newRefreshToken.error);
      }
      r := Ok(Some(Refreshed(newAccessToken, newRefreshToken.value.token)));
    }

    method Logout(userId: string, refreshToken: string)
      requires UniqueIds(repo.tokens)
      modifies repo
      ensures repo.tokens == LogoutSpec(old(repo.tokens), org.users, userId, refreshToken)
    {
      if userId in org.users {
        var tokenOptional := ByToken(repo.tokens, refreshToken);
        if tokenOptional.Some? {
          repo.Save(tokenOptional.value.(revoked := true));
        }
        RevokeAll(userId);
      }
    }
  }

  // ---------------------------------------------------------------------
  // Properties

  /** createRefreshToken fails for an unknown user and changes nothing;
      otherwise, with a fresh row id, the new token is unrevoked and valid
      for seven days, every earlier token of the user is revoked, the other
      rows are unchanged, and the new token is the user's only live one. */
  lemma CreateRefreshTokenOutcome(ts: seq<RefreshToken>, users: map<string, User>, userId: string,
                                  id: string, tokenString: string, now: int)
    requires forall t :: t in ts ==> t.id != id
    ensures var (ts1, r) := CreateRefreshTokenSpec(ts, users, userId, id, tokenString, now);
      && (userId !in users ==> ts1 == ts && r == Err(Runtime))
      && (userId in users ==>
            && r == Ok(RefreshToken(id, users[userId], tokenString, now + ValidityMillis, false))
            && |ts1| == |ts| + 1 && ts1[|ts|] == r.value
            && (forall k :: 0 <= k < |ts| ==>
                  ts1[k] == if ts[k].user.userId == userId then ts[k].(revoked := true) else ts[k])
            && (users[userId].userId == userId ==> Live(ts1, userId) == {r.value}))
  {
    if userId in users {
      var revoked := RevokedFor(ts, userId);
      assert forall x :: x in revoked ==> x.id != id;
      var (ts1, r) := CreateRefreshTokenSpec(ts, users, userId, id, tokenString, now);
      assert ts1 == revoked + [r.value];
    }
  }

  /** verifyExpiration accepts exactly an unexpired, unrevoked token and
      then changes nothing; a refused token's row is gone. */
  lemma VerifyExpirationOutcome(ts: seq<RefreshToken>, t: RefreshToken, now: int)
    ensures var (ts1, valid) := VerifyExpirationSpec(ts, t, now);
      && (valid <==> !Expired(t, now) && !t.revoked)
      && (valid ==> ts1 == ts)
      && (!valid ==> forall x :: x in ts1 <==> x in ts && x.id != t.id)
  {
  }

  /** With the presented token at index k: it is the first row with its
      string. */
  lemma ByTokenAt(ts: seq<RefreshToken>, token: string, k: nat)
    requires k < |ts| && ts[k].token == token && forall j :: 0 <= j < k ==> ts[j].token != token
    ensures ByToken(ts, token) == Some(ts[k])
  {
    var r := FirstIndex(ts, (t: RefreshToken) => t.token == token);
    assert r.Some?;
  }

  /** refreshAccessToken: no result for an unknown, expired or revoked
      token; otherwise the access token is signed for the token's user and
      role, the new refresh token is the given string, the presented token
      is revoked and the new one appended. */
  lemma RefreshAccessTokenOutcome(ts: seq<RefreshToken>, users: map<string, User>, sign: (string, string) -> string,
                                  refreshToken: string, now: int, id: string, tokenString: string)
    requires UniqueIds(ts) && forall t :: t in ts ==> t.id != id
    ensures var (ts1, r) := RefreshAccessTokenSpec(ts, users, sign, refreshToken, now, id, tokenString);
      && (ByToken(ts, refreshToken).None? ==> ts1 == ts && r == Ok(None))
      && (ByToken(ts, refreshToken).Some? ==>
            var t := ByToken(ts, refreshToken).value;
            && (Expired(t, now) || t.revoked ==> r == Ok(None) && forall x :: x in ts1 <==> x in ts && x.id != t.id)
            && (!Expired(t, now) && !t.revoked && t.user.userId in users ==>
                  && r == Ok(Some(Refreshed(sign(t.user.userId, t.user.role), tokenString)))
                  && t.(revoked := true) in ts1
                  && ts1[|ts1| - 1] == RefreshToken(id, users[t.user.userId], tokenString, now + ValidityMillis, false))
            && (!Expired(t, now) && !t.revoked && t.user.userId !in users ==> r == Err(Runtime)))
  {
    if ByToken(ts, refreshToken).Some? {
      var t := ByToken(ts, refreshToken).value;
      if !Expired(t, now) && !t.revoked {
        var k :| 0 <= k < |ts| && ts[k] == t;
        SavedAt(ts, t.(revoked := true), k);
        var ts2 := ts[k := t.(revoked := true)];
        assert forall x :: x in ts2 ==> x.id != id;
        CreateRefreshTokenOutcome(ts2, users, t.user.userId, id, tokenString, now);
        var ts3 := CreateRefreshTokenSpec(ts2, users, t.user.userId, id, tokenString, now).0;
        if t.user.userId in users {
          assert ts3[k] == t.(revoked := true);
        }
      }
    }
  }

  /** A refresh token works at most once: after one successful refresh,
      presenting the same string again gives no result, whatever the clock
      and the new values. */
  lemma RefreshAtMostOnce(ts: seq<RefreshToken>, users: map<string, User>, sign: (string, string) -> string,
                          refreshToken: string, now: int, id: string, tokenString: string,
                          later: int, id2: string, tokenString2: string)
    requires UniqueIds(ts) && forall t :: t in ts ==> t.id != id
    requires RefreshAccessTokenSpec(ts, users, sign, refreshToken, now, id, tokenString).1.Ok?
    requires RefreshAccessTokenSpec(ts, users, sign, refreshToken, now, id, tokenString).1.value.Some?
    ensures var ts1 := RefreshAccessTokenSpec(ts, users, sign, refreshToken, now, id, tokenString).0;
            RefreshAccessTokenSpec(ts1, users, sign, refreshToken, later, id2, tokenString2).1 == Ok(None)
  {
    var t := ByToken(ts, refreshToken).value;
    var k := FirstIndex(ts, (x: RefreshToken) => x.token == refreshToken).value;
    assert ts[k] == t;
    SavedAt(ts, t.(revoked := true), k);
    var ts2 := ts[k := t.(revoked := true)];
    assert forall x :: x in ts2 ==> x.id != id;
    var u := t.user.userId;
    CreateRefreshTokenOutcome(ts2, users, u, id, tokenString, now);
    var ts3 := RefreshAccessTokenSpec(ts, users, sign, refreshToken, now, id, tokenString).0;
    assert ts3 == CreateRefreshTokenSpec(ts2, users, u, id, tokenString, now).0;
    assert ts3[k].token == refreshToken && ts3[k].revoked;
    forall j | 0 <= j < k ensures ts3[j].token != refreshToken {
      assert ts3[j].token == ts[j].token;
    }
    ByTokenAt(ts3, refreshToken, k);
  }

  /** Revoking the row of a token string keeps ids and revocations and
      revokes the first row holding that string. */
  lemma RevokedTokenFacts(ts: seq<RefreshToken>, token: string)
    requires UniqueIds(ts)
    ensures var ts0 := RevokedToken(ts, token);
      && |ts0| == |ts|
      && (forall k :: 0 <= k < |ts| ==> ts0[k].id == ts[k].id && (ts[k].revoked ==> ts0[k].revoked))
      && (forall k :: 0 <= k < |ts| && ts[k].token == token && (forall j :: 0 <= j < k ==> ts[j].token != token)
            ==> ts0[k].revoked)
  {
    var ts0 := RevokedToken(ts, token);
    match ByToken(ts, token)
    case None =>
    case Some(t) =>
      var k :| 0 <= k < |ts| && ts[k] == t;
      SavedAt(ts, t.(revoked := true), k);
      forall j | 0 <= j < |ts| && ts[j].token == token && (forall i :: 0 <= i < j ==> ts[i].token != token)
        ensures ts0[j].revoked
      {
        ByTokenAt(ts, token, j);
      }
  }

  /** logout: an unknown user changes nothing; otherwise the user is left
      with no live token, the first row holding the presented string is
      revoked, and every other row keeps its revocation or becomes
      revoked. */
  lemma LogoutOutcome(ts: seq<RefreshToken>, users: map<string, User>, userId: string, refreshToken: string)
    requires UniqueIds(ts)
    ensures var ts1 := LogoutSpec(ts, users, userId, refreshToken);
      && (userId !in users ==> ts1 == ts)
      && (userId in users ==>
            && |ts1| == |ts|
            && Live(ts1, userId) == {}
            && (forall k :: 0 <= k < |ts| ==> ts1[k].id == ts[k].id && (ts[k].revoked ==> ts1[k].revoked))
            && (forall k :: 0 <= k < |ts| && ts[k].token == refreshToken && (forall j :: 0 <= j < k ==> ts[j].token != refreshToken)
                  ==> ts1[k].revoked))
  {
    if userId in users {
      RevokedTokenFacts(ts, refreshToken);
      var ts0 := RevokedToken(ts, refreshToken);
      var ts1 := RevokedFor(ts0, userId);
      assert forall k :: 0 <= k < |ts| ==> ts1[k].id == ts0[k].id && (ts0[k].revoked ==> ts1[k].revoked);
    }
  }
}
