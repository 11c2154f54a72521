// JwtAuthenticationFilter: reads a Bearer token (section 2.1 of RFC 6750)
// from the Authorization header, accepts only the three-part compact form
// of a JWS (section 7.1 of RFC 7515), and when JwtProvider.validate yields
// a user id installs an authentication whose single authority is that
// user's stored role.  The request then goes down the filter chain.
// JwtProvider.validate is the function `validate`; the rest of the chain
// is a FilterChain whose outcome is fixed.

module JwtFilter {
  import opened Common
  import opened Directory

  /** The case-sensitive scheme prefix of the Authorization header. */
  const BearerPrefix: string := "Bearer "

  /** A UsernamePasswordAuthenticationToken: the principal and the granted
      authorities, in order. */
  datatype Authentication = Authentication(principal: string, authorities: seq<string>)

  /** parseBearerToken: no token for a missing, blank or non-Bearer header;
      otherwise the rest of the header after the prefix, trimmed, provided
      it holds exactly two dots. */
  function ParseBearerToken(authorization: Option<string>): (r: Option<string>)
    ensures r.Some? ==> authorization.Some? && StartsWith(authorization.value, BearerPrefix)
    ensures r.Some? ==> CountChar(r.value, '.') == 2
    ensures r.Some? ==> r.value == Trim(authorization.value[|BearerPrefix|..])
  {
    if !HasText(authorization) || !StartsWith(authorization.value, BearerPrefix) then None
    else
      var token := Trim(authorization.value[|BearerPrefix|..]);
      if CountChar(token, '.') != 2 then None else Some(token)
  }

  // ---------------------------------------------------------------------
  // String facts behind the round trip

  lemma {:induction false} TrimStartPadded(pad: string, s: string)
    requires forall i :: 0 <= i < |pad| ==> IsTrimmed(pad[i])
    requires s != [] && !IsTrimmed(s[0])
    ensures TrimStart(pad + s) == s
    decreases |pad|
  {
    var padded := pad + s;
    if pad != [] {
      assert padded[0] == pad[0] && IsTrimmed(padded[0]);
      assert padded[1..] == pad[1..] + s;
      assert TrimStart(padded) == TrimStart(padded[1..]);
      TrimStartPadded(pad[1..], s);
    } else {
      assert padded == s;
    }
  }

  lemma {:induction false} TrimEndPadded(s: string, pad: string)
    requires forall i :: 0 <= i < |pad| ==> IsTrimmed(pad[i])
    requires s != [] && !IsTrimmed(s[|s| - 1])
    ensures TrimEnd(s + pad) == s
    decreases |pad|
  {
    var padded := s + pad;
    if pad != [] {
      assert padded[|padded| - 1] == pad[|pad| - 1] && IsTrimmed(padded[|padded| - 1]);
      assert padded[..|padded| - 1] == s + pad[..|pad| - 1];
      assert TrimEnd(padded) == TrimEnd(padded[..|padded| - 1]);
      TrimEndPadded(s, pad[..|pad| - 1]);
    } else {
      assert padded == s;
    }
  }

  lemma {:induction false} CountCharAppend(a: string, b: string, c: char)
    ensures CountChar(a + b, c) == CountChar(a, c) + CountChar(b, c)
    decreases |b|
  {
    if b == [] {
      assert a + b == a;
    } else {
      assert (a + b)[..|a + b| - 1] == a + b[..|b| - 1];
      CountCharAppend(a, b[..|b| - 1], c);
    }
  }

  // ---------------------------------------------------------------------
  // Properties of parseBearerToken

  /** A header made of the prefix and a rest whose trimmed form has two
      dots yields that trimmed rest. */
  lemma ParseBearerTokenAccepts(rest: string)
    requires CountChar(Trim(rest), '.') == 2
    ensures ParseBearerToken(Some(BearerPrefix + rest)) == Some(Trim(rest))
  {
    var header := BearerPrefix + rest;
    assert header[..|BearerPrefix|] == BearerPrefix && header[|BearerPrefix|..] == rest;
    assert HasText(Some(header)) by {
      assert header[0] == 'B';
    }
  }

  /** A header "Bearer " followed by a token with exactly two dots and no
      trimmable character at either end, padded by trimmable characters,
      yields that token. */
  lemma {:induction false} ParseBearerTokenRoundTrip(token: string, before: string, after: string)
    requires CountChar(token, '.') == 2
    requires !IsTrimmed(token[0]) && !IsTrimmed(token[|token| - 1])
    requires forall i :: 0 <= i < |before| ==> IsTrimmed(before[i])
    requires forall i :: 0 <= i < |after| ==> IsTrimmed(after[i])
    ensures ParseBearerToken(Some(BearerPrefix + before + token + after)) == Some(token)
  {
    var rest := before + (token + after);
    assert BearerPrefix + before + token + after == BearerPrefix + rest;
    TrimStartPadded(before, token + after);
    TrimEndPadded(token, after);
    assert Trim(rest) == token;
    ParseBearerTokenAccepts(rest);
  }

  /** A JWS in compact form, three dot-free non-empty parts joined by dots,
      sent as "Bearer header.payload.signature", parses back to itself. */
  lemma JwsCompactParses(header: string, payload: string, signature: string)
    requires '.' !in header && '.' !in payload && '.' !in signature
    requires header != [] && !IsTrimmed(header[0])
    requires signature != [] && !IsTrimmed(signature[|signature| - 1])
    ensures var token := header + "." + payload + "." + signature;
            ParseBearerToken(Some(BearerPrefix + token)) == Some(token)
  {
    var token := header + "." + payload + "." + signature;
    JwsCompactDots(header, payload, signature);
    assert token[0] == header[0] && token[|token| - 1] == signature[|signature| - 1];
    assert TrimStart(token) == token && TrimEnd(token) == token;
    ParseBearerTokenAccepts(token);
  }

  /** The compact form holds exactly the two separating dots. */
  lemma JwsCompactDots(header: string, payload: string, signature: string)
    requires '.' !in header && '.' !in payload && '.' !in signature
    ensures CountChar(header + "." + payload + "." + signature, '.') == 2
  {
    CountCharAppend(header, ".", '.');
    CountCharAppend(header + ".", payload, '.');
    CountCharAppend(header + "." + payload, ".", '.');
    CountCharAppend(header + "." + payload + ".", signature, '.');
    assert CountChar(".", '.') == 1;
  }

  /** What parseBearerToken refuses: a missing or blank header, a header
      whose scheme is not exactly "Bearer " (so "bearer " is refused), and a
      token without exactly two dots; an accepted token is non-empty and
      has nothing trimmable at either end. */
  lemma ParseBearerTokenRefuses(authorization: Option<string>)
    ensures authorization.None? || IsBlank(authorization.value) ==> ParseBearerToken(authorization).None?
    ensures authorization.Some? && StartsWith(authorization.value, "bearer ") ==> ParseBearerToken(authorization).None?
    ensures (authorization.Some? && StartsWith(authorization.value, BearerPrefix) &&
             CountChar(Trim(authorization.value[|BearerPrefix|..]), '.') != 2) ==> ParseBearerToken(authorization).None?
    ensures var r := ParseBearerToken(authorization);
            r.Some? ==> r.value != [] && !IsTrimmed(r.value[0]) && !IsTrimmed(r.value[|r.value| - 1])
  {
    if authorization.Some? && StartsWith(authorization.value, "bearer ") {
      assert authorization.value[0] == 'b';
    }
  }

  // ---------------------------------------------------------------------
  // doFilterInternal

  /** SecurityContextHolder: the authentication of the current request. */
  class SecurityContextHolder {
    var authentication: Option<Authentication>

    constructor ()
      ensures authentication.None?
    {
      authentication := None;
    }
  }

  /** The rest of the filter chain: it counts its invocations and ends the
      same way on every call, normally or with `failure`. */
  class FilterChain {
    var invocations: nat
    const failure: Option<Exception>

    constructor (failure: Option<Exception>)
      ensures invocations == 0 && this.failure == failure
    {
      invocations := 0;
      this.failure := failure;
    }

    method DoFilter() returns (r: Result<(), Exception>)
      modifies this
      ensures invocations == old(invocations) + 1
      ensures r == (if failure.Some? then Err(failure.value) else Ok(()))
    {
      invocations := invocations + 1;
      r := if failure.Some? then Err(failure.value) else Ok(());
    }
  }

  /** The authentication the try block installs, or None when it returns
      early or throws: a parsed token, a subject from validate, a stored
      user (a missing one is a null dereference) and a role with text
      (SimpleGrantedAuthority refuses a blank one). */
  function Authenticated(users: map<string, User>, validate: string -> Option<string>,
                         authorization: Option<string>): Option<Authentication>
  {
    match ParseBearerToken(authorization)
    case None => None
    case Some(token) =>
      match validate(token)
      case None => None
      case Some(userId) => Grant(users, userId)
  }

  /** The authentication built for a validated subject: none for a user
      that is not stored or whose role has no text. */
  function Grant(users: map<string, User>, userId: string): Option<Authentication>
  {
    if userId !in users || !HasText(Some(users[userId].role)) then None
    else Some(Authentication(userId, [users[userId].role]))
  }

  /** The outcome of doFilterInternal: the authentication of the context,
      the number of chain invocations and how the filter ends.  In the two
      early-return branches the chain is called inside the try block;
      `rechain` says whether an exception from it is swallowed and the chain
      called again after the block, as the source does. */
  function DoFilterWith(auth: Option<Authentication>, invocations: nat, failure: Option<Exception>,
                        users: map<string, User>, validate: string -> Option<string>,
                        authorization: Option<string>, rechain: bool): (Option<Authentication>, nat, Result<(), Exception>)
  {
    var ending := if failure.Some? then Err(failure.value) else Ok(());
    var early := match ParseBearerToken(authorization)
      case None => true
      case Some(token) => validate(token).None?;
    if early then
      if failure.Some? && rechain then (auth, invocations + 2, ending)
      else (auth, invocations + 1, ending)
    else
      var installed := Authenticated(users, validate, authorization);
      (if installed.Some? then installed else auth, invocations + 1, ending)
  }

  /** doFilterInternal as written. */
  function DoFilterAsWritten(auth: Option<Authentication>, invocations: nat, failure: Option<Exception>,
                             users: map<string, User>, validate: string -> Option<string>,
                             authorization: Option<string>): (Option<Authentication>, nat, Result<(), Exception>)
  {
    DoFilterWith(auth, invocations, failure, users, validate, authorization, true)
  }

  /** doFilterInternal as intended: the early branches leave the filter
      with the chain's own outcome. */
  function DoFilterSpec(auth: Option<Authentication>, invocations: nat, failure: Option<Exception>,
                        users: map<string, User>, validate: string -> Option<string>,
                        authorization: Option<string>): (Option<Authentication>, nat, Result<(), Exception>)
  {
    DoFilterWith(auth, invocations, failure, users, validate, authorization, false)
  }

  class JwtAuthenticationFilter {
    const org: Org
    const validate: string -> Option<string>
    const holder: SecurityContextHolder

    constructor (org: Org, validate: string -> Option<string>, holder: SecurityContextHolder)
      ensures this.org == org && this.validate == validate && this.holder == holder
    {
      this.org := org;
      this.validate := validate;
      this.holder := holder;
    }

    /** The body of the try block after validation: look the user up, build
        the authority from the stored role and install the context; a
        missing user or a blank role throws before anything is installed. */
    method Authenticate(userId: string)
      modifies holder
      ensures holder.authentication ==
              (if Grant(org.users, userId).Some? then Grant(org.users, userId) else old(holder.authentication))
    {
      if userId in org.users {
        var role := org.users[userId].role;
        if HasText(Some(role)) {
          holder.authentication := Some(Authentication(userId, [role]));
        }
      }
    }

    method DoFilterInternal(authorization: Option<string>, chain: FilterChain) returns (r: Result<(), Exception>)
      modifies holder, chain
      ensures (holder.authentication, chain.invocations, r) ==
              DoFilterSpec(old(holder.authentication), old(chain.invocations), chain.failure, org.users, validate, authorization)
    {
      var token := ParseBearerToken(authorization);
      if token.None? {
        r := chain.DoFilter();
        return;
      }
      var userId := validate(token.value);
      if userId.None? {
        r := chain.DoFilter();
        return;
      }
      Authenticate(userId.value);
      r := chain.DoFilter();
    }
  }

  // ---------------------------------------------------------------------
  // Properties of doFilterInternal

  /** The request goes down the chain exactly once, and the filter ends as
      the chain does. */
  lemma DoFilterChainsOnce(auth: Option<Authentication>, invocations: nat, failure: Option<Exception>,
                           users: map<string, User>, validate: string -> Option<string>, authorization: Option<string>)
    ensures var (_, n, r) := DoFilterSpec(auth, invocations, failure, users, validate, authorization);
            n == invocations + 1 && (r.Ok? <==> failure.None?) && (r.Err? ==> r.error == failure.value)
  {
  }

  /** Authentication is installed exactly when the header parses, validate
      yields a subject, the user is stored and has a role with text; its
      principal is the subject and its only authority that role.  Otherwise
      the context keeps what it had. */
  lemma DoFilterAuthenticates(auth: Option<Authentication>, invocations: nat, failure: Option<Exception>,
                              users: map<string, User>, validate: string -> Option<string>, authorization: Option<string>)
    ensures var (a, _, _) := DoFilterSpec(auth, invocations, failure, users, validate, authorization);
      var token := ParseBearerToken(authorization);
      && (token.Some? && validate(token.value).Some? && validate(token.value).value in users
          && HasText(Some(users[validate(token.value).value].role)) ==>
            var userId := validate(token.value).value;
            a == Some(Authentication(userId, [users[userId].role])))
      && ((|| token.None? || validate(token.value).None? || validate(token.value).value !in users
           || !HasText(Some(users[validate(token.value).value].role))) ==> a == auth)
      && (a != auth ==> a.Some? && |a.value.authorities| == 1 && a.value.principal in users
                        && a.value.authorities[0] == users[a.value.principal].role)
  {
  }

  /** As written, a missing token combined with a chain that throws sends
      the request down the chain twice. */
  lemma DoFilterTwiceAsWritten(users: map<string, User>, validate: string -> Option<string>)
    ensures DoFilterAsWritten(None, 0, Some(Runtime), users, validate, None).1 == 2
  {
  }
}
