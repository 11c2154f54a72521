// WebSocketConfig's two authentication hooks: the SockJS handshake
// interceptor, which decides from a token whether the /ws handshake may
// proceed, and the inbound STOMP channel interceptor, which attaches a user
// to each frame whose Authorization native header validates.  Both take
// the token without the filter's trimming or dot check.  JwtProvider.validate
// is the function `validate`; it may also throw, which the hooks catch.

module WebSocketAuth {
  import opened Common
  import opened JwtFilter

  const UnauthorizedStatus: int := 401
  const ForbiddenStatus: int := 403

  /** The single authority both hooks grant, whatever the stored role. */
  const UserRole: string := "ROLE_USER"

  /** The handshake attribute that carries the user id to the session. */
  const UserIdAttribute: string := "userId"

  const AuthorizationHeader: string := "Authorization"

  /** extractToken: the accessToken request parameter when present;
      otherwise the Authorization header after "Bearer ", untrimmed. */
  function ExtractToken(accessToken: Option<string>, authorization: Option<string>): Option<string>
  {
    if accessToken.Some? then accessToken
    else if authorization.Some? && StartsWith(authorization.value, BearerPrefix) then
      Some(authorization.value[|BearerPrefix|..])
    else None
  }

  /** extractTokenFromHeaders: `nativeHeaders` is None when the header is
      not a map; a missing key and a null list are the same.  Only the
      first Authorization value is read. */
  function ExtractTokenFromHeaders(nativeHeaders: Option<map<string, seq<Option<string>>>>): Option<string>
  {
    if nativeHeaders.None? || AuthorizationHeader !in nativeHeaders.value then None
    else
      var values := nativeHeaders.value[AuthorizationHeader];
      if values == [] then None
      else ExtractToken(None, values[0])
  }

  /** What beforeHandshake leaves behind: whether the handshake proceeds,
      the response status, the session attributes and the security
      context. */
  datatype Handshake = Handshake(allowed: bool, status: Option<int>, attributes: map<string, string>,
                                 authentication: Option<Authentication>)

  /** beforeHandshake, for a servlet request or not. */
  function HandshakeSpec(isServlet: bool, accessToken: Option<string>, authorization: Option<string>,
                         validate: string -> Result<Option<string>, Exception>,
                         status: Option<int>, attributes: map<string, string>,
                         authentication: Option<Authentication>): Handshake
  {
    var untouched := Handshake(true, status, attributes, authentication);
    if !isServlet then untouched
    else
      match ExtractToken(accessToken, authorization)
      case None => untouched
      case Some(token) =>
        match validate(token)
        case Err(_) => Handshake(false, Some(ForbiddenStatus), attributes, authentication)
        case Ok(None) => Handshake(false, Some(UnauthorizedStatus), attributes, authentication)
        case Ok(Some(userId)) =>
          Handshake(true, status, attributes[UserIdAttribute := userId], Some(Authentication(userId, [UserRole])))
  }

  /** The user preSend leaves on a frame: set only when an accessor exists,
      a token is found and validate yields a subject; a failure of
      validate is swallowed. */
  function PreSendUser(user: Option<Authentication>, hasAccessor: bool,
                       nativeHeaders: Option<map<string, seq<Option<string>>>>,
                       validate: string -> Result<Option<string>, Exception>): Option<Authentication>
  {
    if !hasAccessor then user
    else
      match ExtractTokenFromHeaders(nativeHeaders)
      case None => user
      case Some(token) =>
        match validate(token)
        case Ok(Some(userId)) => Some(Authentication(userId, [UserRole]))
        case _ => user
  }

  /** The handshake response; only its status is modelled. */
  class HandshakeResponse {
    var status: Option<int>

    constructor ()
      ensures status.None?
    {
      status := None;
    }
  }

  /** The attribute map handed to the WebSocket session. */
  class SessionAttributes {
    var values: map<string, string>

    constructor ()
      ensures values == map[]
    {
      values := map[];
    }
  }

  /** An inbound STOMP frame: whether it carries a StompHeaderAccessor,
      its native headers, and the user set on it. */
  class StompMessage {
    const hasAccessor: bool
    const nativeHeaders: Option<map<string, seq<Option<string>>>>
    var user: Option<Authentication>

    constructor (hasAccessor: bool, nativeHeaders: Option<map<string, seq<Option<string>>>>)
      ensures this.hasAccessor == hasAccessor && this.nativeHeaders == nativeHeaders && user.None?
    {
      this.hasAccessor := hasAccessor;
      this.nativeHeaders := nativeHeaders;
      user := None;
    }
  }

  class WebSocketConfig {
    const validate: string -> Result<Option<string>, Exception>
    const holder: SecurityContextHolder

    constructor (validate: string -> Result<Option<string>, Exception>, holder: SecurityContextHolder)
      ensures this.validate == validate && this.holder == holder
    {
      this.validate := validate;
      this.holder := holder;
    }

    method BeforeHandshake(isServlet: bool, accessToken: Option<string>, authorization: Option<string>,
                           response: HandshakeResponse, attributes: SessionAttributes) returns (allowed: bool)
      modifies response, attributes, holder
      ensures Handshake(allowed, response.status, attributes.values, holder.authentication) ==
              HandshakeSpec(isServlet, accessToken, authorization, validate,
                            old(response.status), old(attributes.values), old(holder.authentication))
    {
      if !isServlet {
        return true;
      }
      var token := ExtractToken(accessToken, authorization);
      if token.None? {
        return true;
      }
      var validated := validate(token.value);
      if validated.Err? {
        response.status := Some(ForbiddenStatus);
        return false;
      }
      if validated.value.Some? {
        var userId := validated.value.value;
        holder.authentication := Some(Authentication(userId, [UserRole]));
        attributes.values := attributes.values[UserIdAttribute := userId];
        return true;
      }
      response.status := Some(UnauthorizedStatus);
      allowed := false;
    }

    method PreSend(message: StompMessage) returns (r: StompMessage)
      modifies message
      ensures r == message
      ensures message.user == PreSendUser(old(message.user), message.hasAccessor, message.nativeHeaders, validate)
    {
      if message.hasAccessor {
        var token := ExtractTokenFromHeaders(message.nativeHeaders);
        if token.Some? {
          var validated := validate(token.value);
          if validated.Ok? && validated.value.Some? {
            message.user := Some(Authentication(validated.value.value, [UserRole]));
          }
        }
      }
      r := message;
    }
  }

  // ---------------------------------------------------------------------
  // Properties

  /** The handshake table: no token lets the handshake through untouched;
      a subject lets it through with the userId attribute and a ROLE_USER
      context; an empty validation refuses it with 401 and a failing one
      with 403, leaving attributes and context alone. */
  lemma HandshakeDecision(accessToken: Option<string>, authorization: Option<string>,
                          validate: string -> Result<Option<string>, Exception>,
                          status: Option<int>, attributes: map<string, string>, authentication: Option<Authentication>)
    ensures var h := HandshakeSpec(true, accessToken, authorization, validate, status, attributes, authentication);
      var token := ExtractToken(accessToken, authorization);
      && (h.allowed <==> token.None? || (validate(token.value).Ok? && validate(token.value).value.Some?))
      && (!h.allowed ==> h.attributes == attributes && h.authentication == authentication
                         && h.status == Some(if validate(token.value).Err? then ForbiddenStatus else UnauthorizedStatus))
      && (h.allowed && token.Some? ==>
            var userId := validate(token.value).value.value;
            && h.status == status
            && h.attributes == attributes[UserIdAttribute := userId]
            && h.authentication == Some(Authentication(userId, [UserRole])))
      && (token.None? ==> h == Handshake(true, status, attributes, authentication))
  {
  }

  /** A validator that never throws, like JwtProvider.validate, which
      turns every parse failure into null, never yields the 403 branch. */
  lemma HandshakeNeverForbiddenWhenValidateTotal(accessToken: Option<string>, authorization: Option<string>,
                                                 validate: string -> Result<Option<string>, Exception>,
                                                 status: Option<int>, attributes: map<string, string>,
                                                 authentication: Option<Authentication>)
    requires forall t :: validate(t).Ok?
    requires status != Some(ForbiddenStatus)
    ensures HandshakeSpec(true, accessToken, authorization, validate, status, attributes, authentication).status
            != Some(ForbiddenStatus)
  {
  }

  /** The accessToken parameter wins over any header. */
  lemma ExtractTokenPrefersParameter(accessToken: string, authorization: Option<string>)
    ensures ExtractToken(Some(accessToken), authorization) == Some(accessToken)
  {
  }

  /** Every header the filter accepts, the WebSocket hooks accept too, and
      trimming what they extract gives the filter's token. */
  lemma ExtractTokenCoversFilter(authorization: Option<string>)
    requires ParseBearerToken(authorization).Some?
    ensures ExtractToken(None, authorization).Some?
    ensures Trim(ExtractToken(None, authorization).value) == ParseBearerToken(authorization).value
  {
  }

  /** The converse fails: a header the filter refuses for its dot count
      still yields a token for the WebSocket hooks. */
  lemma ExtractTokenSkipsDotCheck()
    ensures ParseBearerToken(Some(BearerPrefix + "abc")).None?
    ensures ExtractToken(None, Some(BearerPrefix + "abc")) == Some("abc")
  {
    var header := BearerPrefix + "abc";
    assert header[..|BearerPrefix|] == BearerPrefix && header[|BearerPrefix|..] == "abc";
    assert Trim("abc") == "abc" by {
      assert TrimStart("abc") == "abc";
      assert TrimEnd("abc") == "abc";
    }
    assert CountChar("abc", '.') == 0;
  }

  /** extractTokenFromHeaders reads the first Authorization value and
      ignores the rest. */
  lemma ExtractTokenFromHeadersFirstOnly(headers: map<string, seq<Option<string>>>, first: Option<string>,
                                         rest: seq<Option<string>>)
    ensures ExtractTokenFromHeaders(Some(headers[AuthorizationHeader := [first] + rest])) == ExtractToken(None, first)
    ensures ExtractTokenFromHeaders(Some(headers[AuthorizationHeader := []])).None?
    ensures ExtractTokenFromHeaders(Some(headers - {AuthorizationHeader})).None?
  {
  }

  /** preSend sets a ROLE_USER user exactly when the first Authorization
      header carries a Bearer token that validates; otherwise the frame's
      user is untouched. */
  lemma PreSendAuthenticates(user: Option<Authentication>,
                             nativeHeaders: Option<map<string, seq<Option<string>>>>,
                             validate: string -> Result<Option<string>, Exception>)
    ensures var token := ExtractTokenFromHeaders(nativeHeaders);
      var u := PreSendUser(user, true, nativeHeaders, validate);
      && (token.Some? && validate(token.value).Ok? && validate(token.value).value.Some? ==>
            u == Some(Authentication(validate(token.value).value.value, [UserRole])))
      && (token.None? || validate(token.value).Err? || validate(token.value).value.None? ==> u == user)
    ensures PreSendUser(user, false, nativeHeaders, validate) == user
  {
  }
}
