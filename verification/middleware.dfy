/** The two JWTAuth middlewares and GetUserIDFromToken. Token validation
    (signature and expiry) is an uninterpreted validator: the claims of a
    valid token, None otherwise. Request headers are keyed by their canonical
    MIME names, cookies by name. */
module Middleware {
  import opened Wrappers
  import opened Text
  import opened Http

  /** The user_id and username a token carries. */
  datatype Claims = Claims(userId: nat, username: string)

  type Validator = string -> Option<Claims>

  /** The context values userID and username, set only when next runs. */
  datatype Gate = Gate(status: Option<nat>, next: bool, identity: Option<Claims>, cookie: Option<Cookie>, location: string)

  /** The header name the Bearer middleware reads, as spelled in the code. */
  const HeaderAsWritten := "Authorizetion"

  /** The standard request header for credentials. */
  const AuthorizationHeader := "Authorization"

  const BearerPrefix := "Bearer "

  const JwtCookie := "jwt"

  const LoginPage := "/login-page"

  /** Header.Get: the value under the name, "" when absent. */
  function HeaderValue(headers: map<string, string>, name: string): string {
    if name in headers then headers[name] else ""
  }

  function Reject(status: nat): Gate {
    Gate(Some(status), false, None, None, "")
  }

  function Pass(claims: Claims): Gate {
    Gate(None, true, Some(claims), None, "")
  }

  /** internal/middleware JWTAuth with the header name as a parameter: 401
      unless the header holds "Bearer " and a token the validator accepts. */
  function BearerAuth(headers: map<string, string>, headerName: string, validate: Validator): (r: Gate)
    ensures r.next <==> r.status.None?
    ensures r.next <==>
              && HasPrefix(HeaderValue(headers, headerName), BearerPrefix)
              && validate(HeaderValue(headers, headerName)[|BearerPrefix|..]).Some?
    ensures r.next ==> r.identity == validate(HeaderValue(headers, headerName)[|BearerPrefix|..])
    ensures !r.next ==> r.status == Some(StatusUnauthorized) && r.identity.None?
    ensures r.cookie.None?
  {
    var authHeader := HeaderValue(headers, headerName);
    if authHeader == "" then Reject(StatusUnauthorized)
    else
      var token := TrimPrefix(authHeader, BearerPrefix);
      if token == authHeader then Reject(StatusUnauthorized)
      else
        match validate(token)
        case None => Reject(StatusUnauthorized)
        case Some(claims) => Pass(claims)
  }

  /** pkg/middleware JWTAuth: a missing or empty jwt cookie redirects to the
      login page; an invalid token also blanks the cookie, with an expiry one
      day ahead; a valid one lets the request through. */
  function CookieAuth(cookies: map<string, string>, validate: Validator, now: int): (r: Gate)
    ensures r.next <==> r.status.None?
    ensures r.next <==> JwtCookie in cookies && cookies[JwtCookie] != "" && validate(cookies[JwtCookie]).Some?
    ensures r.next ==> r.identity == validate(cookies[JwtCookie]) && r.cookie.None?
    ensures !r.next ==> r.status == Some(StatusSeeOther) && r.location == LoginPage && r.identity.None?
    ensures r.cookie.Some? <==> JwtCookie in cookies && cookies[JwtCookie] != "" && validate(cookies[JwtCookie]).None?
    ensures r.cookie.Some? ==> r.cookie.value == Cookie(JwtCookie, "", now + Day, "/", false)
  {
    if JwtCookie !in cookies then Gate(Some(StatusSeeOther), false, None, None, LoginPage)
    else
      var token := cookies[JwtCookie];
      if token == "" then Gate(Some(StatusSeeOther), false, None, None, LoginPage)
      else
        match validate(token)
        case None => Gate(Some(StatusSeeOther), false, None, Some(Cookie(JwtCookie, "", now + Day, "/", false)), LoginPage)
        case Some(claims) => Pass(claims)
  }

  /** GetUserIDFromToken: (0, error) without a jwt cookie or with a token the
      validator refuses, otherwise (claims.UserID, nil). */
  datatype UserIdResult = UserIdResult(id: nat, failed: bool)

  function GetUserIDFromToken(cookies: map<string, string>, validate: Validator): (r: UserIdResult)
    ensures r.failed <==> JwtCookie !in cookies || validate(cookies[JwtCookie]).None?
    ensures r.failed ==> r.id == 0
    ensures !r.failed ==> r.id == validate(cookies[JwtCookie]).value.userId
  {
    if JwtCookie !in cookies then UserIdResult(0, true)
    else
      match validate(cookies[JwtCookie])
      case None => UserIdResult(0, true)
      case Some(claims) => UserIdResult(claims.userId, false)
  }

  // ------------------------------------------------------------- properties

  /** Exactly one "Bearer " is removed: the token is everything after it. */
  lemma BearerTokenIsSuffix(headers: map<string, string>, headerName: string, validate: Validator, token: string)
    requires HeaderValue(headers, headerName) == BearerPrefix + token
    ensures BearerAuth(headers, headerName, validate).identity == validate(token)
  {
    assert (BearerPrefix + token)[..|BearerPrefix|] == BearerPrefix;
    assert (BearerPrefix + token)[|BearerPrefix|..] == token;
  }

  /** As written: a client that sends its valid token in the standard
      Authorization header (and no misspelt one) is refused. */
  lemma StandardHeaderRefused(token: string, validate: Validator)
    requires validate(token).Some?
    ensures var headers := map[AuthorizationHeader := BearerPrefix + token];
            BearerAuth(headers, HeaderAsWritten, validate) == Reject(StatusUnauthorized)
  {
    var headers := map[AuthorizationHeader := BearerPrefix + token];
    assert HeaderAsWritten != AuthorizationHeader by {
      assert HeaderAsWritten[8] != AuthorizationHeader[8];
    }
    assert HeaderValue(headers, HeaderAsWritten) == "";
  }

  /** Corrected: reading the standard header, the same request passes with the
      token's claims. */
  lemma StandardHeaderAccepted(token: string, validate: Validator)
    requires validate(token).Some?
    ensures var headers := map[AuthorizationHeader := BearerPrefix + token];
            BearerAuth(headers, AuthorizationHeader, validate) == Pass(validate(token).value)
  {
    var headers := map[AuthorizationHeader := BearerPrefix + token];
    BearerTokenIsSuffix(headers, AuthorizationHeader, validate, token);
  }

  /** Both middlewares and GetUserIDFromToken agree on who the caller is. */
  lemma CookieIdentityAgrees(cookies: map<string, string>, validate: Validator, now: int)
    requires CookieAuth(cookies, validate, now).next
    ensures !GetUserIDFromToken(cookies, validate).failed
    ensures GetUserIDFromToken(cookies, validate).id == CookieAuth(cookies, validate, now).identity.value.userId
  {
  }
}
