/** Register, Login and Logout (internal/auth/handler/handler.go; the monolith's
    Register and Login in internal/handler/handler.go are the same code). The
    users table is the registry; bcrypt is the hashing outcome `hashed` and
    the comparison `matches`; token signing is `sign`, which may fail. */
module Auth {
  import opened Wrappers
  import opened Models
  import opened Store
  import opened Http
  import opened Middleware

  /** The bound form: username and password. */
  datatype AuthRequest = AuthRequest(username: string, password: string)

  /** jwt.GenerateToken(userID, username): a signed token, or None when signing fails. */
  type Signer = (nat, string) -> Option<string>

  /** The answer, the registry after it, and the cookie set, if any. */
  datatype AuthReply = AuthReply(status: nat, location: string, db: Db, cookie: Option<Cookie>)

  /** The session cookie both handlers set: HttpOnly, path "/", one day. */
  function SessionCookie(token: string, now: int): Cookie {
    Cookie(JwtCookie, token, now + Day, "/", true)
  }

  function Fail(db: Db, status: nat): AuthReply {
    AuthReply(status, "", db, None)
  }

  /** Register (lines 55-87): 400, 409 on a taken name, 500 when hashing,
      the insert or signing fails, else a new user, a cookie and 303 to "/".
      lookupFails is an error of the existence check, which lets the request
      go on to the insert; insertFails is an error of Create other than a
      violated constraint. */
  function Register(db: Db, req: Option<AuthRequest>, lookupFails: bool, hashed: Option<string>, insertFails: bool,
                    sign: Signer, now: int): (r: AuthReply)
    ensures r.status in {StatusSeeOther, StatusBadRequest, StatusConflict, StatusInternalServerError}
    ensures r.status == StatusBadRequest <==> req.None?
    ensures r.status == StatusConflict <==> req.Some? && !lookupFails && UsernameTaken(db, req.value.username)
    ensures r.status in {StatusBadRequest, StatusConflict} ==> r.db == db
    ensures req.Some? && UsernameTaken(db, req.value.username) ==> r.db == db && r.cookie.None?
    ensures r.db == db || |r.db.users| == |db.users| + 1
    ensures insertFails ==> r.db == db
    ensures r.db != db ==> r.status == StatusSeeOther || (hashed.Some? && sign(|db.users| + 1, req.value.username).None?)
    ensures r.cookie.Some? <==> r.status == StatusSeeOther
    ensures r.status == StatusSeeOther <==>
              && req.Some? && !UsernameTaken(db, req.value.username)
              && hashed.Some? && UserFitsSchema(req.value.username, hashed.value) && !insertFails
              && sign(|db.users| + 1, req.value.username).Some?
    ensures r.status == StatusSeeOther ==>
              && r.location == "/"
              && hashed.Some?
              && r.db == db.(users := db.users + [UserRow(req.value.username, hashed.value, now)])
              && sign(|db.users| + 1, req.value.username).Some?
              && r.cookie == Some(SessionCookie(sign(|db.users| + 1, req.value.username).value, now))
  {
    if req.None? then Fail(db, StatusBadRequest)
    else
      var name := req.value.username;
      if !lookupFails && FindUserByName(db, name).Some? then Fail(db, StatusConflict)
      else
        var (user, ok) := HashPassword(User(ZeroBase, name, ""), hashed);
        if !ok || insertFails then Fail(db, StatusInternalServerError)
        else
          match InsertUser(db, user.username, user.passwordHash, now)
          case None => Fail(db, StatusInternalServerError)
          case Some((db', created)) =>
            match sign(created.base.id, created.username)
            case None => Fail(db', StatusInternalServerError)
            case Some(token) => AuthReply(StatusSeeOther, "/", db', Some(SessionCookie(token, now)))
  }

  /** Login (lines 22-53): 400, 401 for an unknown name, 500 for a wrong
      password or a signing failure, else a cookie and 303 to "/". The
      registry never changes. */
  function Login(db: Db, req: Option<AuthRequest>, lookupFails: bool, matches: (string, string) -> bool,
                 sign: Signer, now: int): (r: AuthReply)
    ensures r.db == db
    ensures r.status in {StatusSeeOther, StatusBadRequest, StatusUnauthorized, StatusInternalServerError}
    ensures r.status == StatusBadRequest <==> req.None?
    ensures r.status == StatusUnauthorized <==> req.Some? && (lookupFails || !UsernameTaken(db, req.value.username))
    ensures r.cookie.Some? <==> r.status == StatusSeeOther
    ensures r.status == StatusSeeOther <==>
              && req.Some? && !lookupFails && UsernameTaken(db, req.value.username)
              && var u := FindUserByName(db, req.value.username).value;
                 matches(u.passwordHash, req.value.password) && sign(u.base.id, u.username).Some?
    ensures r.status == StatusSeeOther ==>
              && r.location == "/"
              && var u := FindUserByName(db, req.value.username).value;
                 && matches(u.passwordHash, req.value.password)
                 && sign(u.base.id, u.username).Some?
                 && r.cookie == Some(SessionCookie(sign(u.base.id, u.username).value, now))
  {
    if req.None? then Fail(db, StatusBadRequest)
    else if lookupFails then Fail(db, StatusUnauthorized)
    else
      match FindUserByName(db, req.value.username)
      case None => Fail(db, StatusUnauthorized)
      case Some(u) =>
        if !CheckPassword(u, req.value.password, matches) then Fail(db, StatusInternalServerError)
        else
          match sign(u.base.id, u.username)
          case None => Fail(db, StatusInternalServerError)
          case Some(token) => AuthReply(StatusSeeOther, "/", db, Some(SessionCookie(token, now)))
  }

  /** Logout (lines 89-97): an empty jwt cookie that expired an hour ago, and 200. */
  function Logout(db: Db, now: int): (r: AuthReply)
    ensures r.status == StatusOK && r.db == db
    ensures r.cookie.Some? && r.cookie.value.name == JwtCookie && r.cookie.value.value == ""
    ensures r.cookie.value.expires == now - Hour && r.cookie.value.path == "/" && !r.cookie.value.httpOnly
  {
    AuthReply(StatusOK, "", db, Some(Cookie(JwtCookie, "", now - Hour, "/", false)))
  }

  // ------------------------------------------------------------- properties

  /** Registration keeps usernames unique. */
  lemma RegisterKeepsValid(db: Db, req: Option<AuthRequest>, lookupFails: bool, hashed: Option<string>, insertFails: bool,
                           sign: Signer, now: int)
    requires Valid(db)
    ensures Valid(Register(db, req, lookupFails, hashed, insertFails, sign, now).db)
  {
    var r := Register(db, req, lookupFails, hashed, insertFails, sign, now);
    if r.db != db {
      InsertUserKeepsValid(db, req.value.username, hashed.value, now);
    }
  }

  /** A name registers at most once: registering it again answers 409 and
      changes nothing. */
  lemma RegisterTwiceConflicts(db: Db, req: AuthRequest, hashed: Option<string>, sign: Signer, now: int,
                               hashed2: Option<string>, insertFails2: bool, sign2: Signer, now2: int)
    requires Register(db, Some(req), false, hashed, false, sign, now).db != db
    ensures var db' := Register(db, Some(req), false, hashed, false, sign, now).db;
            var again := Register(db', Some(req), false, hashed2, insertFails2, sign2, now2);
            again.status == StatusConflict && again.db == db'
  {
    var db' := Register(db, Some(req), false, hashed, false, sign, now).db;
    assert db'.users[|db.users|].username == req.username;
  }

  /** Whoever registers can log in with the same password: the new user is
      found by name, and the password matches the hash stored for it. */
  lemma RegisterThenLogin(db: Db, req: AuthRequest, hashed: string, sign: Signer, now: int,
                          matches: (string, string) -> bool, later: int)
    requires Register(db, Some(req), false, Some(hashed), false, sign, now).status == StatusSeeOther
    requires matches(hashed, req.password)
    ensures var db' := Register(db, Some(req), false, Some(hashed), false, sign, now).db;
            var login := Login(db', Some(req), false, matches, sign, later);
            && login.status == StatusSeeOther
            && login.cookie == Some(SessionCookie(sign(|db.users| + 1, req.username).value, later))
  {
    var db' := Register(db, Some(req), false, Some(hashed), false, sign, now).db;
    assert db'.users[|db.users|].username == req.username;
    var u := FindUserByName(db', req.username).value;
    assert u.base.id == |db.users| + 1;
  }
}
