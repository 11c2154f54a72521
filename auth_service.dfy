// AuthServiceImplement: id checks, e-mail certification, sign-up, sign-in
// with an access and a refresh token, token refresh, and social logout.
// The user table is the organisation's; certifications are a table keyed
// by user id.  The password encoder, the mail provider's verdict, the
// random certification number, the access-token signer and the Kakao and
// Naver logout APIs are parameters.

module Auth {
  import opened Common
  import opened Directory
  import opened RefreshTokens

  /** ResponseCode: the code each failure or success answers with. */
  datatype AuthCode = Success | DuplicateId | CertificationFail | MailFail | SignInFail | DatabaseError

  function CodeOf(c: AuthCode): string
  {
    match c
    case Success => "SU"
    case DuplicateId => "DI"
    case CertificationFail => "CF"
    case MailFail => "MF"
    case SignInFail => "SF"
    case DatabaseError => "DBE"
  }

  /** CertificationEntity, keyed by user id; the columns may be null. */
  datatype Certification = Certification(userId: string, email: Option<string>, certificationNumber: Option<string>)

  /** The role and login type `new UserEntity(dto)` gives a signed-up user. */
  const SignUpRole: string := "ROLE_USER"
  const AppLoginType: string := "app"

  /** The comparison `stored email equals email and stored number equals
      number`: a null stored column is dereferenced only when evaluation
      reaches it, and then throws. */
  function CertificationMatches(c: Certification, email: string, certificationNumber: string): Result<bool, Exception>
  {
    if c.email.None? then Err(NullPointer)
    else if c.email.value != email then Ok(false)
    else if c.certificationNumber.None? then Err(NullPointer)
    else Ok(c.certificationNumber.value == certificationNumber)
  }

  /** idCheck. */
  function IdCheckSpec(users: map<string, User>, id: string): AuthCode
  {
    if id in users then DuplicateId else Success
  }

  /** emailCertification: a known id is refused before any mail is sent;
      a mail that cannot be sent stores nothing; otherwise the number is
      stored for the id, replacing any earlier one. */
  function EmailCertificationSpec(certs: map<string, Certification>, users: map<string, User>,
                                  id: string, email: string, certificationNumber: string, mailSent: bool)
    : (map<string, Certification>, AuthCode)
  {
    if id in users then (certs, DuplicateId)
    else if !mailSent then (certs, MailFail)
    else (certs[id := Certification(id, Some(email), Some(certificationNumber))], Success)
  }

  /** checkCertification. */
  function CheckCertificationSpec(certs: map<string, Certification>, id: string, email: string,
                                  certificationNumber: string): AuthCode
  {
    if id !in certs then CertificationFail
    else
      match CertificationMatches(certs[id], email, certificationNumber)
      case Err(_) => DatabaseError
      case Ok(matched) => if matched then Success else CertificationFail
  }

  /** The user `new UserEntity(dto)` builds from a sign-up request whose
      password was already encoded. */
  function SignedUpUser(id: string, encodedPassword: string, email: string): User
  {
    User(id, Some(encodedPassword), Some(email), Some(AppLoginType), SignUpRole, None)
  }

  /** signUp: a known id first; then the stored certification, whose
      absence is a null dereference; on a match the user is saved with the
      encoded password and the certification deleted. */
  function SignUpSpec(users: map<string, User>, certs: map<string, Certification>, encode: string -> string,
                      id: string, password: string, email: string, certificationNumber: string)
    : (map<string, User>, map<string, Certification>, AuthCode)
  {
    if id in users then (users, certs, DuplicateId)
    else if id !in certs then (users, certs, DatabaseError)
    else
      match CertificationMatches(certs[id], email, certificationNumber)
      case Err(_) => (users, certs, DatabaseError)
      case Ok(matched) =>
        if !matched then (users, certs, CertificationFail)
        else (users[id := SignedUpUser(id, encode(password), email)], certs - {id}, Success)
  }

  /** signIn's answer: the two tokens and the access-token lifetime, or a
      failure code. */
  datatype SignIn = SignedIn(token: string, refreshToken: string, expiresIn: int) | SignInRefused(code: AuthCode)

  /** BCryptPasswordEncoder.matches: a null stored password never matches. */
  function PasswordMatches(matches: (string, string) -> bool, password: string, stored: Option<string>): bool
  {
    stored.Some? && matches(password, stored.value)
  }

  /** signIn: an unknown user or a wrong password is refused and changes
      nothing; otherwise the access token is signed with the user's role
      and a refresh token created, which revokes the user's earlier ones. */
  function SignInSpec(ts: seq<RefreshToken>, users: map<string, User>, matches: (string, string) -> bool,
                      sign: (string, string) -> string, expiresIn: int,
                      id: string, password: string, tokenId: string, tokenString: string, now: int)
    : (seq<RefreshToken>, SignIn)
  {
    if id !in users || !PasswordMatches(matches, password, users[id].password) then (ts, SignInRefused(SignInFail))
    else
      var token := sign(id, users[id].role);
      var (ts1, created) := CreateRefreshTokenSpec(ts, users, id, tokenId, tokenString, now);
      match created
      case Err(_) => (ts1, SignInRefused(DatabaseError))
      case Ok(entity) => (ts1, SignedIn(token, entity.token, expiresIn))
  }

  /** refreshToken's answer. */
  datatype Refresh = RefreshedTokens(accessToken: string, refreshToken: string, expiresIn: int)
                   | RefreshTokenNotProvided
                   | InvalidRefreshToken

  /** refreshToken: a null or blank token is refused before the table is
      read; a token the service does not honour is invalid. */
  function RefreshSpec(ts: seq<RefreshToken>, users: map<string, User>, sign: (string, string) -> string, expiresIn: int,
                       refreshToken: Option<string>, now: int, id: string, tokenString: string)
    : (seq<RefreshToken>, Result<Refresh, Exception>)
  {
    if refreshToken.None? || Trim(refreshToken.value) == [] then (ts, Ok(RefreshTokenNotProvided))
    else
      var (ts1, r) := RefreshAccessTokenSpec(ts, users, sign, refreshToken.value, now, id, tokenString);
      match r
      case Err(x) => (ts1, Err(x))
      case Ok(None) => (ts1, Ok(InvalidRefreshToken))
      case Ok(Some(pair)) => (ts1, Ok(RefreshedTokens(pair.accessToken, pair.refreshToken, expiresIn)))
  }

  // ---------------------------------------------------------------------
  // logout

  /** A cookie, as read from the request or added to the response. */
  datatype Cookie = Cookie(name: string, value: Option<string>, maxAge: int, domain: Option<string>,
                           path: Option<string>, secure: bool, httpOnly: bool)

  const KakaoMethod: string := "kakao"
  const NaverMethod: string := "naver"
  const KakaoCookie: string := "kakaoToken"
  const NaverCookie: string := "naverToken"
  const OkStatus: int := 200
  const BadRequestStatus: int := 400
  const UnauthorizedStatus: int := 401
  const ServerErrorStatus: int := 500

  /** The session cookie cleared on every logout. */
  const SessionCookie: Cookie := Cookie("Idea-b5e63b4f", None, 0, Some("localhost:4040"), Some("/"), false, true)

  /** The expired cookie that replaces a provider token cookie. */
  function ExpiredCookie(name: string): Cookie
  {
    Cookie(name, None, 0, None, Some("/"), false, false)
  }

  /** The cookie that carries the token of the given login method. */
  predicate CarriesToken(c: Cookie, loginMethod: string)
  {
    (c.name == KakaoCookie && loginMethod == KakaoMethod) || (c.name == NaverCookie && loginMethod == NaverMethod)
  }

  /** The cookie loop: the value of the first cookie that carries the
      method's token, or null. */
  function LogoutToken(cookies: Option<seq<Cookie>>, loginMethod: string): Option<string>
  {
    if cookies.None? then None
    else
      match FindFirst(cookies.value, (c: Cookie) => CarriesToken(c, loginMethod))
      case None => None
      case Some(c) => c.value
  }

  /** A plain-text response. */
  datatype TextReply = TextReply(status: int, body: string)

  /** logout: the response cookies added and the reply.  `provider` is the
      status the provider's logout API answered with, or the exception the
      REST call threw, which logout does not catch.  The session cookie is
      added before anything else. */
  function SocialLogoutSpec(cookies: Option<seq<Cookie>>, loginMethod: string, provider: Result<int, Exception>)
    : (seq<Cookie>, Result<TextReply, Exception>)
  {
    var token := LogoutToken(cookies, loginMethod);
    var (added, reply) :=
      if token.None? then ([], Ok(TextReply(UnauthorizedStatus, loginMethod + " 토큰이 없습니다.")))
      else if loginMethod == KakaoMethod then
        ProviderLogoutSpec(KakaoCookie, "카카오 로그아웃 성공", "카카오 로그아웃 실패", provider)
      else if loginMethod == NaverMethod then
        ProviderLogoutSpec(NaverCookie, "네이버 로그아웃 성공", "네이버 로그아웃 실패", provider)
      else ([], Ok(TextReply(BadRequestStatus, "지원되지 않는 로그인 방식입니다.")));
    ([SessionCookie] + added, reply)
  }

  /** logoutKakao and logoutNaver after the API call: the provider's token
      cookie is expired only on a 200. */
  function ProviderLogoutSpec(cookieName: string, success: string, failure: string, provider: Result<int, Exception>)
    : (seq<Cookie>, Result<TextReply, Exception>)
  {
    match provider
    case Err(x) => ([], Err(x))
    case Ok(status) =>
      if status == OkStatus then ([ExpiredCookie(cookieName)], Ok(TextReply(OkStatus, success)))
      else ([], Ok(TextReply(ServerErrorStatus, failure)))
  }

  // ---------------------------------------------------------------------
  // The service

  /** CertificationRepository. */
  class CertificationRepository {
    var table: map<string, Certification>

    constructor ()
      ensures table == map[]
    {
      table := map[];
    }
  }

  /** The HTTP session, when one exists. */
  class HttpSession {
    var valid: bool

    constructor ()
      ensures valid
    {
      valid := true;
    }
  }

  /** The servlet response; only the cookies it collects are modelled. */
  class ServletResponse {
    var cookies: seq<Cookie>

    constructor ()
      ensures cookies == []
    {
      cookies := [];
    }
  }

  class AuthServiceImplement {
    const org: Org
    const certifications: CertificationRepository
    const refreshTokens: RefreshTokenService
    const encode: string -> string
    const matches: (string, string) -> bool
    const expiresIn: int

    constructor (certifications: CertificationRepository, refreshTokens: RefreshTokenService, encode: string -> string,
                 matches: (string, string) -> bool, expiresIn: int)
      ensures Wired()
      ensures this.certifications == certifications && this.refreshTokens == refreshTokens
      ensures this.encode == encode && this.matches == matches && this.expiresIn == expiresIn
    {
      this.org := refreshTokens.org;
      this.certifications := certifications;
      this.refreshTokens := refreshTokens;
      this.encode := encode;
      this.matches := matches;
      this.expiresIn := expiresIn;
    }

    /** The service and the refresh-token service share the user table;
        both sign with the refresh-token service's signer. */
    predicate Wired()
    {
      refreshTokens.org == org
    }

    method IdCheck(id: string) returns (r: AuthCode)
      ensures r == DuplicateId <==> id in org.users
      ensures r == Success <==> id !in org.users
    {
      var isExistId := id in org.users;
      if isExistId {
        return DuplicateId;
      }
      r := Success;
    }

    method EmailCertification(id: string, email: string, certificationNumber: string, mailSent: bool)
      returns (r: AuthCode)
      modifies certifications
      ensures (certifications.table, r) ==
              EmailCertificationSpec(old(certifications.table), org.users, id, email, certificationNumber, mailSent)
    {
      if id in org.users {
        return DuplicateId;
      }
      if !mailSent {
        return MailFail;
      }
      certifications.table := certifications.table[id := Certification(id, Some(email), Some(certificationNumber))];
      r := Success;
    }

    method CheckCertification(id: string, email: string, certificationNumber: string) returns (r: AuthCode)
      ensures r == CheckCertificationSpec(certifications.table, id, email, certificationNumber)
    {
      if id !in certifications.table {
        return CertificationFail;
      }
      var isMatched := CertificationMatches(certifications.table[id], email, certificationNumber);
      if isMatched.Err? {
        return DatabaseError;
      }
      r := if isMatched.value then Success else CertificationFail;
    }

    method SignUp(id: string, password: string, email: string, certificationNumber: string) returns (r: AuthCode)
      modifies org, certifications
      ensures (org.users, certifications.table, r) ==
              SignUpSpec(old(org.users), old(certifications.table), encode, id, password, email, certificationNumber)
      ensures org.departments == old(org.departments) && org.sections == old(org.sections)
      ensures org.employees == old(org.employees) && org.nextId == old(org.nextId)
    {
      if id in org.users {
        return DuplicateId;
      }
      if id !in certifications.table {
        return DatabaseError;
      }
      var isMatched := CertificationMatches(certifications.table[id], email, certificationNumber);
      if isMatched.Err? {
        return DatabaseError;
      }
      if !isMatched.value {
        return CertificationFail;
      }
      var encodedPassword := encode(password);
      org.users := org.users[id := SignedUpUser(id, encodedPassword, email)];
      certifications.table := certifications.table - {id};
      r := Success;
    }

    method SignInUser(id: string, password: string, tokenId: string, tokenString: string, now: int) returns (r: SignIn)
      requires Wired() && UniqueIds(refreshTokens.repo.tokens)
      modifies refreshTokens.repo
      ensures (refreshTokens.repo.tokens, r) ==
              SignInSpec(old(refreshTokens.repo.tokens), org.users, matches, refreshTokens.sign, expiresIn, id, password, tokenId, tokenString, now)
    {
      if id !in org.users {
        return SignInRefused(SignInFail);
      }
      var userEntity := org.users[id];
      if !PasswordMatches(matches, password, userEntity.password) {
        return SignInRefused(SignInFail);
      }
      var token := refreshTokens.sign(id, userEntity.role);
      var refreshTokenEntity := refreshTokens.CreateRefreshToken(id, tokenId, tokenString, now);
      if refreshTokenEntity.Err? {
        return SignInRefused(DatabaseError);
      }
      r := SignedIn(token, refreshTokenEntity.value.token, expiresIn);
    }

    method RefreshToken(refreshToken: Option<string>, now: int, id: string, tokenString: string)
      returns (r: Result<Refresh, Exception>)
      requires Wired() && UniqueIds(refreshTokens.repo.tokens)
      modifies refreshTokens.repo
      ensures (refreshTokens.repo.tokens, r) ==
              RefreshSpec(old(refreshTokens.repo.tokens), org.users, refreshTokens.sign, expiresIn, refreshToken, now, id, tokenString)
    {
      if refreshToken.None? || Trim(refreshToken.value) == [] {
        return Ok(RefreshTokenNotProvided);
      }
      var tokenMapOpt := refreshTokens.RefreshAccessToken(refreshToken.value, now, id, tokenString);
      if tokenMapOpt.Err? {
        return Err(tokenMapOpt.error);
      }
      if tokenMapOpt.value.None? {
        return Ok(InvalidRefreshToken);
      }
      var tokenMap := tokenMapOpt.value.value;
      r := Ok(RefreshedTokens(tokenMap.accessToken, tokenMap.refreshToken, expiresIn));
    }

    /** The cookie loop of logout, with its early exit. */
    method FindLogoutToken(cookies: Option<seq<Cookie>>, loginMethod: string) returns (token: Option<string>)
      ensures token == LogoutToken(cookies, loginMethod)
    {
      token := None;
      if cookies.None? {
        return;
      }
      var all := cookies.value;
      var i := 0;
      while i < |all|
        invariant 0 <= i <= |all|
        invariant forall j :: 0 <= j < i ==> !CarriesToken(all[j], loginMethod)
      {
        if CarriesToken(all[i], loginMethod) {
          ghost var first := FirstIndex(all, (c: Cookie) => CarriesToken(c, loginMethod));
          assert first == Some(i) by {
            assert first.Some?;
            assert !(first.value < i);
            assert !(first.value > i);
          }
          return all[i].value;
        }
        i := i + 1;
      }
    }

    method Logout(cookies: Option<seq<Cookie>>, loginMethod: string, session: HttpSession?,
                  response: ServletResponse, provider: Result<int, Exception>)
      returns (r: Result<TextReply, Exception>)
      modifies session, response
      ensures session != null ==> !session.valid
      ensures (response.cookies, r) == (var (added, reply) := SocialLogoutSpec(cookies, loginMethod, provider);
                                        (old(response.cookies) + added, reply))
    {
      if session != null {
        session.valid := false;
      }
      response.cookies := response.cookies + [SessionCookie];
      var token := FindLogoutToken(cookies, loginMethod);
      if token.None? {
        assert [SessionCookie] + [] == [SessionCookie];
        return Ok(TextReply(UnauthorizedStatus, loginMethod + " 토큰이 없습니다."));
      }
      ghost var before := response.cookies;
      if loginMethod == KakaoMethod {
        r := ProviderLogout(KakaoCookie, "카카오 로그아웃 성공", "카카오 로그아웃 실패", response, provider);
      } else if loginMethod == NaverMethod {
        r := ProviderLogout(NaverCookie, "네이버 로그아웃 성공", "네이버 로그아웃 실패", response, provider);
      } else {
        r := Ok(TextReply(BadRequestStatus, "지원되지 않는 로그인 방식입니다."));
      }
      assert before == old(response.cookies) + [SessionCookie];
      assert response.cookies == old(response.cookies) + SocialLogoutSpec(cookies, loginMethod, provider).0;
    }

    /** logoutKakao / logoutNaver once the provider has answered. */
    method ProviderLogout(cookieName: string, success: string, failure: string, response: ServletResponse,
                          provider: Result<int, Exception>) returns (r: Result<TextReply, Exception>)
      modifies response
      ensures var (added, reply) := ProviderLogoutSpec(cookieName, success, failure, provider);
              response.cookies == old(response.cookies) + added && r == reply
    {
      if provider.Err? {
        return Err(provider.error);
      }
      if provider.value == OkStatus {
        response.cookies := response.cookies + [ExpiredCookie(cookieName)];
        return Ok(TextReply(OkStatus, success));
      }
      r := Ok(TextReply(ServerErrorStatus, failure));
    }
  }

  // ---------------------------------------------------------------------
  // Properties

  /** checkCertification succeeds exactly when a record exists with both
      columns set and equal to the request's; a record with a null column
      that is reached ends in databaseError. */
  lemma CheckCertificationIff(certs: map<string, Certification>, id: string, email: string, certificationNumber: string)
    ensures CheckCertificationSpec(certs, id, email, certificationNumber) == Success <==>
            id in certs && certs[id].email == Some(email) && certs[id].certificationNumber == Some(certificationNumber)
    ensures id !in certs ==> CheckCertificationSpec(certs, id, email, certificationNumber) == CertificationFail
    ensures id in certs && certs[id].email.Some? && certs[id].email != Some(email) ==>
            CheckCertificationSpec(certs, id, email, certificationNumber) == CertificationFail
  {
  }

  /** emailCertification: a known id is refused and nothing stored; a
      failed mail stores nothing; a sent mail stores exactly the id's new
      certification and leaves the others. */
  lemma EmailCertificationOutcome(certs: map<string, Certification>, users: map<string, User>,
                                  id: string, email: string, certificationNumber: string, mailSent: bool)
    ensures var (certs1, r) := EmailCertificationSpec(certs, users, id, email, certificationNumber, mailSent);
      && (id in users ==> r == DuplicateId && certs1 == certs)
      && (id !in users && !mailSent ==> r == MailFail && certs1 == certs)
      && (r == Success <==> id !in users && mailSent)
      && (r == Success ==> certs1.Keys == certs.Keys + {id}
                           && CheckCertificationSpec(certs1, id, email, certificationNumber) == Success
                           && forall k :: k in certs && k != id ==> certs1[k] == certs[k])
  {
  }

  /** signUp: a known id is refused first, whatever the certification; a
      missing certification or a null column reached is a databaseError; a
      mismatch saves nothing; success saves the user with the encoded
      password, the app login type and ROLE_USER, and deletes the
      certification. */
  lemma SignUpOutcome(users: map<string, User>, certs: map<string, Certification>, encode: string -> string,
                      id: string, password: string, email: string, certificationNumber: string)
    ensures var (users1, certs1, r) := SignUpSpec(users, certs, encode, id, password, email, certificationNumber);
      && (id in users ==> r == DuplicateId)
      && (id !in users && id !in certs ==> r == DatabaseError)
      && (r != Success ==> users1 == users && certs1 == certs)
      && (r == Success <==> id !in users && CheckCertificationSpec(certs, id, email, certificationNumber) == Success)
      && (r == Success ==>
            && users1 == users[id := User(id, Some(encode(password)), Some(email), Some(AppLoginType), SignUpRole, None)]
            && certs1 == certs - {id}
            && IdCheckSpec(users1, id) == DuplicateId)
  {
  }

  /** Certifying an e-mail and then signing up with the same id, e-mail
      and number succeeds, leaves no certification behind, and makes the id
      taken. */
  lemma CertifyThenSignUp(certs: map<string, Certification>, users: map<string, User>, encode: string -> string,
                          id: string, email: string, certificationNumber: string, password: string)
    requires id !in users
    ensures var (certs1, r1) := EmailCertificationSpec(certs, users, id, email, certificationNumber, true);
      var (users2, certs2, r2) := SignUpSpec(users, certs1, encode, id, password, email, certificationNumber);
      && r1 == Success && r2 == Success
      && id !in certs2 && IdCheckSpec(users2, id) == DuplicateId
  {
  }

  /** signIn: refused without any change for an unknown user or a wrong
      password; with a fresh token id, success returns the access token
      signed with the stored role and the new refresh token, which is the
      user's only live one. */
  lemma SignInOutcome(ts: seq<RefreshToken>, users: map<string, User>, matches: (string, string) -> bool,
                      sign: (string, string) -> string, expiresIn: int,
                      id: string, password: string, tokenId: string, tokenString: string, now: int)
    requires forall t :: t in ts ==> t.id != tokenId
    ensures var (ts1, r) := SignInSpec(ts, users, matches, sign, expiresIn, id, password, tokenId, tokenString, now);
      && (id !in users || !PasswordMatches(matches, password, users[id].password) ==>
            ts1 == ts && r == SignInRefused(SignInFail))
      && (id in users && PasswordMatches(matches, password, users[id].password) ==>
            && r == SignedIn(sign(id, users[id].role), tokenString, expiresIn)
            && (users[id].userId == id ==> Live(ts1, id) == {RefreshTokens.RefreshToken(tokenId, users[id], tokenString, now + ValidityMillis, false)}))
  {
    CreateRefreshTokenOutcome(ts, users, id, tokenId, tokenString, now);
  }

  /** With an encoder whose output its matcher accepts, a user who signed
      up can sign in with the same password. */
  lemma SignUpThenSignIn(users: map<string, User>, certs: map<string, Certification>, encode: string -> string,
                         matches: (string, string) -> bool, sign: (string, string) -> string, expiresIn: int,
                         ts: seq<RefreshToken>, id: string, password: string, email: string, certificationNumber: string,
                         tokenId: string, tokenString: string, now: int)
    requires forall p :: matches(p, encode(p))
    requires forall t :: t in ts ==> t.id != tokenId
    requires SignUpSpec(users, certs, encode, id, password, email, certificationNumber).2 == Success
    ensures var users1 := SignUpSpec(users, certs, encode, id, password, email, certificationNumber).0;
            SignInSpec(ts, users1, matches, sign, expiresIn, id, password, tokenId, tokenString, now).1 ==
            SignedIn(sign(id, SignUpRole), tokenString, expiresIn)
  {
    var users1 := SignUpSpec(users, certs, encode, id, password, email, certificationNumber).0;
    SignUpOutcome(users, certs, encode, id, password, email, certificationNumber);
    assert users1[id].password == Some(encode(password));
    SignInOutcome(ts, users1, matches, sign, expiresIn, id, password, tokenId, tokenString, now);
  }

  /** refreshToken: a null or blank token is refused without touching the
      table; otherwise it answers as the refresh-token service does. */
  lemma RefreshOutcome(ts: seq<RefreshToken>, users: map<string, User>, sign: (string, string) -> string, expiresIn: int,
                       refreshToken: Option<string>, now: int, id: string, tokenString: string)
    ensures var (ts1, r) := RefreshSpec(ts, users, sign, expiresIn, refreshToken, now, id, tokenString);
      && (refreshToken.None? || Trim(refreshToken.value) == [] ==> ts1 == ts && r == Ok(RefreshTokenNotProvided))
      && (refreshToken.Some? && ByToken(ts, refreshToken.value).None? && Trim(refreshToken.value) != [] ==>
            ts1 == ts && r == Ok(InvalidRefreshToken))
      && (r.Ok? && r.value.RefreshedTokens? ==> r.value.refreshToken == tokenString && r.value.expiresIn == expiresIn)
  {
    if refreshToken.Some? && Trim(refreshToken.value) != [] {
      var token := refreshToken.value;
      match ByToken(ts, token)
      case None =>
      case Some(t) =>
        var (ts1, valid) := VerifyExpirationSpec(ts, t, now);
        if valid {
          var created := CreateRefreshTokenSpec(Saved(ts1, t.(revoked := true)), users, t.user.userId, id, tokenString, now).1;
          assert created.Ok? ==> created.value.token == tokenString;
        }
    }
  }

  /** logout reads the kakaoToken cookie for "kakao" and the naverToken
      cookie for "naver", the first such cookie; any other method finds no
      token, so the reply is 401 and the unsupported-method 400 is never
      returned.  The session cookie is cleared on every path. */
  lemma LogoutTokenSelection(cookies: Option<seq<Cookie>>, loginMethod: string, provider: Result<int, Exception>)
    ensures var token := LogoutToken(cookies, loginMethod);
      && (token.Some? ==> loginMethod == KakaoMethod || loginMethod == NaverMethod)
      && (token.Some? ==> exists i :: 0 <= i < |cookies.value| && cookies.value[i].value == token
                            && cookies.value[i].name == (if loginMethod == KakaoMethod then KakaoCookie else NaverCookie))
    ensures var (added, r) := SocialLogoutSpec(cookies, loginMethod, provider);
      && added[0] == SessionCookie
      && (r.Ok? ==> r.value.status != BadRequestStatus)
      && (loginMethod != KakaoMethod && loginMethod != NaverMethod ==> r.Ok? && r.value.status == UnauthorizedStatus)
  {
    var token := LogoutToken(cookies, loginMethod);
    if token.Some? {
      var c := FindFirst(cookies.value, (c: Cookie) => CarriesToken(c, loginMethod)).value;
      var i :| 0 <= i < |cookies.value| && cookies.value[i] == c;
    }
  }
}
