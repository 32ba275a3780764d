/** The authentication service: login, token refresh and registration as transitions
    over the user and session tables. A failure returns no new state, so the tables
    the caller holds are left as they were (the whole call is one transaction). */
module Auth {
  import opened Wrappers
  import opened Ids
  import opened Entities
  import opened Jwt
  import opened Users
  import Seqs

  /** The collaborators the service is configured with. */
  datatype Env = Env(jwt: JwtConfig, hasher: Hasher)

  const TokenType: string := "Bearer"

  /** `LoginResponse`, the body returned by all three operations. */
  datatype LoginResponse = LoginResponse(
    accessToken: string,
    tokenType: string,
    expiresIn: int,
    expiresAt: int,
    refreshToken: string,
    refreshExpiresIn: int,
    refreshExpiresAt: int,
    sessionId: Uuid,
    user: UserResponse)

  /** The runtime exceptions the service throws. `NonUniqueSession` is the repository's
      own exception when two sessions hold the refresh token looked up. */
  datatype AuthError =
    | InvalidCredentials
    | InvalidRefreshToken
    | SessionNotFound
    | NonUniqueSession
    | SessionNotActive
    | RefreshTokenExpired
    | PhoneNumberAlreadyExists

  /** The text each failure is raised with; none is empty, so the exception handler
      reports it as raised rather than with its default text. */
  function Message(e: AuthError): (r: string)
    ensures |r| > 0
  {
    match e
    case InvalidCredentials => "Invalid credentials"
    case InvalidRefreshToken => "Invalid refresh token"
    case SessionNotFound => "Session not found"
    case NonUniqueSession => "Query did not return a unique result"
    case SessionNotActive => "Session is not active"
    case RefreshTokenExpired => "Refresh token expired"
    case PhoneNumberAlreadyExists => "Phone number already exists"
  }

  /** The response reports exactly the session's tokens, expiries and id, with token
      type "Bearer" and the two configured lifetimes. */
  predicate Describes(cfg: JwtConfig, resp: LoginResponse, s: Session) {
    && resp.accessToken == s.accessToken
    && resp.refreshToken == s.refreshToken
    && resp.expiresAt == s.accessTokenExpiresAt
    && resp.refreshExpiresAt == s.refreshTokenExpiresAt
    && resp.sessionId == s.sessionId
    && resp.tokenType == TokenType
    && resp.expiresIn == cfg.accessTtl
    && resp.refreshExpiresIn == cfg.refreshTtl
  }

  /** `s` carries tokens freshly issued at `now` for user `u`, and their expiries. */
  predicate IssuedFor(cfg: JwtConfig, s: Session, u: User, now: int) {
    && s.owner == u.id
    && s.accessToken == GenerateAccessToken(cfg, u.id, u.phoneNumber, now)
    && s.refreshToken == GenerateRefreshToken(cfg, u.id, u.phoneNumber, now)
    && s.accessTokenExpiresAt == now + cfg.accessTtl
    && s.refreshTokenExpiresAt == now + cfg.refreshTtl
  }

  /** `after` is `before` with one session appended: active, with a session id no
      existing session has, the request's device info, tokens issued at `now` for `u`,
      and described by `resp`. */
  predicate Opened(cfg: JwtConfig, before: seq<Session>, after: seq<Session>, u: User,
                   deviceInfo: Option<string>, now: int, resp: LoginResponse)
  {
    && |after| == |before| + 1
    && after[..|before|] == before
    && (forall k :: 0 <= k < |before| ==> before[k].sessionId != after[|before|].sessionId)
    && after[|before|].isActive
    && after[|before|].deviceInfo == deviceInfo
    && IssuedFor(cfg, after[|before|], u, now)
    && Describes(cfg, resp, after[|before|])
  }

  /** The step login and register share: save a new active session for `u` and build
      the response. */
  function OpenSession(cfg: JwtConfig, db: Db, u: User, deviceInfo: Option<string>, now: int)
    : (r: (Db, LoginResponse))
    ensures r.0.users == db.users && r.0.partners == db.partners
    ensures Opened(cfg, db.sessions, r.0.sessions, u, deviceInfo, now, r.1)
    ensures r.1.user == MapToUserResponse(u, db.partners)
  {
    var s := Session(Fresh(db.sessions, (x: Session) => x.sessionId), u.id, deviceInfo,
                     GenerateAccessToken(cfg, u.id, u.phoneNumber, now),
                     GenerateRefreshToken(cfg, u.id, u.phoneNumber, now),
                     GetExpirationTimestamp(cfg.accessTtl, now),
                     GetExpirationTimestamp(cfg.refreshTtl, now),
                     true);
    var resp := LoginResponse(s.accessToken, TokenType, cfg.accessTtl, s.accessTokenExpiresAt,
                              s.refreshToken, cfg.refreshTtl, s.refreshTokenExpiresAt,
                              s.sessionId, MapToUserResponse(u, db.partners));
    assert (db.sessions + [s])[..|db.sessions|] == db.sessions;
    (db.(sessions := db.sessions + [s]), resp)
  }

  /** `login`: authenticate, then open one session. */
  function Login(env: Env, db: Db, phone: string, password: string, deviceInfo: Option<string>, now: int)
    : (r: Result<(Db, LoginResponse), AuthError>)
    ensures r.Failure? <==> Authenticate(env.hasher, db.users, phone, password).None?
    ensures r.Failure? ==> r.error == InvalidCredentials
    ensures r.Success? ==>
      var u := Authenticate(env.hasher, db.users, phone, password).value;
      var (db', resp) := r.value;
      && db'.users == db.users && db'.partners == db.partners
      && Opened(env.jwt, db.sessions, db'.sessions, u, deviceInfo, now, resp)
      && resp.user == MapToUserResponse(u, db.partners)
  {
    match Authenticate(env.hasher, db.users, phone, password)
    case None => Failure(InvalidCredentials)
    case Some(u) => Success(OpenSession(env.jwt, db, u, deviceInfo, now))
  }

  /** The token check at the head of `refreshToken`: the token verifies, has not
      expired and is of the refresh class. */
  predicate RefreshTokenUsable(cfg: JwtConfig, token: string, now: int) {
    !IsTokenExpired(cfg, token, now) && IsRefreshToken(cfg, token, now)
  }

  /** Session `k` is the only one holding `token`. */
  predicate HoldsUniquely(sessions: seq<Session>, token: string, k: int) {
    && 0 <= k < |sessions|
    && sessions[k].refreshToken == token
    && forall j :: 0 <= j < |sessions| && j != k ==> sessions[j].refreshToken != token
  }

  /** `findByRefreshToken`. */
  function SessionByRefreshToken(sessions: seq<Session>, token: string): (r: Seqs.Lookup)
    ensures r.NoMatch? <==> forall j :: 0 <= j < |sessions| ==> sessions[j].refreshToken != token
    ensures r.Unique? ==> HoldsUniquely(sessions, token, r.index)
    ensures r.NonUnique? <==> exists i, j :: 0 <= i < j < |sessions| && sessions[i].refreshToken == token && sessions[j].refreshToken == token
  {
    Seqs.FindUnique(sessions, (s: Session) => s.refreshToken == token)
  }

  /** A session holding the token alone is the only such session, and no two sessions
      then hold it. */
  lemma SoleHolder(sessions: seq<Session>, token: string, k: int)
    requires HoldsUniquely(sessions, token, k)
    ensures forall m :: HoldsUniquely(sessions, token, m) ==> m == k
    ensures !exists i, j :: 0 <= i < j < |sessions| && sessions[i].refreshToken == token && sessions[j].refreshToken == token
  {
  }

  /** When no session or two sessions hold the token, none holds it alone. */
  lemma NoSoleHolder(sessions: seq<Session>, token: string)
    requires !SessionByRefreshToken(sessions, token).Unique?
    ensures forall m :: !HoldsUniquely(sessions, token, m)
  {
    if SessionByRefreshToken(sessions, token).NonUnique? {
      var i, j :| 0 <= i < j < |sessions| && sessions[i].refreshToken == token && sessions[j].refreshToken == token;
    }
  }

  /** The session after rotation: new tokens and expiries for its owner `u`; id, owner,
      device and activity untouched. */
  function Rotate(cfg: JwtConfig, s: Session, u: User, now: int): (r: Session)
    requires s.owner == u.id
    ensures r.sessionId == s.sessionId && r.owner == s.owner
    ensures r.deviceInfo == s.deviceInfo && r.isActive == s.isActive
    ensures IssuedFor(cfg, r, u, now)
  {
    s.(accessToken := GenerateAccessToken(cfg, u.id, u.phoneNumber, now),
       refreshToken := GenerateRefreshToken(cfg, u.id, u.phoneNumber, now),
       accessTokenExpiresAt := GetExpirationTimestamp(cfg.accessTtl, now),
       refreshTokenExpiresAt := GetExpirationTimestamp(cfg.refreshTtl, now))
  }

  /** The owner of a session, loaded through the foreign key. */
  function OwnerOf(db: Db, k: nat): (u: User)
    requires SessionsOwned(db) && k < |db.sessions|
    ensures u in db.users && u.id == db.sessions[k].owner
  {
    db.users[UserIndexById(db.users, db.sessions[k].owner).value]
  }

  /** Session row `k` rewritten by a refresh at `now`: everything else kept, the row's
      id, owner and device kept, active, carrying tokens issued for its owner at `now`,
      and described by `resp`. */
  predicate Rewritten(cfg: JwtConfig, db: Db, k: nat, now: int, db': Db, resp: LoginResponse)
    requires SessionsOwned(db) && k < |db.sessions|
  {
    && db'.users == db.users && db'.partners == db.partners
    && |db'.sessions| == |db.sessions|
    && (forall j :: 0 <= j < |db.sessions| && j != k ==> db'.sessions[j] == db.sessions[j])
    && db'.sessions[k].sessionId == db.sessions[k].sessionId
    && db'.sessions[k].owner == db.sessions[k].owner
    && db'.sessions[k].deviceInfo == db.sessions[k].deviceInfo
    && db'.sessions[k].isActive
    && IssuedFor(cfg, db'.sessions[k], OwnerOf(db, k), now)
    && Describes(cfg, resp, db'.sessions[k])
    && resp.user == MapToUserResponse(OwnerOf(db, k), db.partners)
  }

  /** The part of `refreshToken` after the lookup found session `k`: the activity check,
      then the stored-expiry check, then the rotation of that row. */
  function RefreshSession(env: Env, db: Db, k: nat, now: int): (r: Result<(Db, LoginResponse), AuthError>)
    requires SessionsOwned(db) && k < |db.sessions|
    ensures r == Failure(SessionNotActive) <==> !db.sessions[k].isActive
    ensures r == Failure(RefreshTokenExpired) <==> db.sessions[k].isActive && db.sessions[k].refreshTokenExpiresAt < now
    ensures r.Failure? ==> r.error in {SessionNotActive, RefreshTokenExpired}
    ensures r.Success? ==> Rewritten(env.jwt, db, k, now, r.value.0, r.value.1)
  {
    var s := db.sessions[k];
    if !s.isActive then Failure(SessionNotActive)
    else if s.refreshTokenExpiresAt < now then Failure(RefreshTokenExpired)
    else
      var u := OwnerOf(db, k);
      var s' := Rotate(env.jwt, s, u, now);
      var resp := LoginResponse(s'.accessToken, TokenType, env.jwt.accessTtl, s'.accessTokenExpiresAt,
                                s'.refreshToken, env.jwt.refreshTtl, s'.refreshTokenExpiresAt,
                                s'.sessionId, MapToUserResponse(u, db.partners));
      Success((db.(sessions := db.sessions[k := s']), resp))
  }

  /** `refreshToken`: the token check, then the session lookup, then the activity check,
      then the stored-expiry check; on success the same session row is rewritten in
      place. The foreign key from sessions to users is a precondition: the session's
      owner is always loadable. */
  function Refresh(env: Env, db: Db, token: string, now: int): (r: Result<(Db, LoginResponse), AuthError>)
    requires SessionsOwned(db)
    ensures !RefreshTokenUsable(env.jwt, token, now) <==> r == Failure(InvalidRefreshToken)
    ensures r == Failure(SessionNotFound) <==>
      RefreshTokenUsable(env.jwt, token, now) && forall j :: 0 <= j < |db.sessions| ==> db.sessions[j].refreshToken != token
    ensures r == Failure(NonUniqueSession) <==>
      RefreshTokenUsable(env.jwt, token, now) &&
      exists i, j :: 0 <= i < j < |db.sessions| && db.sessions[i].refreshToken == token && db.sessions[j].refreshToken == token
    ensures r == Failure(SessionNotActive) <==>
      RefreshTokenUsable(env.jwt, token, now) &&
      exists k :: HoldsUniquely(db.sessions, token, k) && !db.sessions[k].isActive
    ensures r == Failure(RefreshTokenExpired) <==>
      RefreshTokenUsable(env.jwt, token, now) &&
      exists k :: HoldsUniquely(db.sessions, token, k) && db.sessions[k].isActive && db.sessions[k].refreshTokenExpiresAt < now
    ensures r.Failure? ==> r.error in {InvalidRefreshToken, SessionNotFound, NonUniqueSession, SessionNotActive, RefreshTokenExpired}
    ensures r.Success? ==>
      exists k :: HoldsUniquely(db.sessions, token, k)
        && db.sessions[k].isActive && db.sessions[k].refreshTokenExpiresAt >= now
        && Rewritten(env.jwt, db, k, now, r.value.0, r.value.1)
  {
    if IsTokenExpired(env.jwt, token, now) || !IsRefreshToken(env.jwt, token, now) then
      Failure(InvalidRefreshToken)
    else
      match SessionByRefreshToken(db.sessions, token)
      case NoMatch =>
        NoSoleHolder(db.sessions, token);
        Failure(SessionNotFound)
      case NonUnique =>
        NoSoleHolder(db.sessions, token);
        Failure(NonUniqueSession)
      case Unique(k) =>
        SoleHolder(db.sessions, token, k);
        RefreshSession(env, db, k, now)
  }

  /** The row a successful refresh rewrote: the one holding the token alone. */
  lemma RefreshedRow(env: Env, db: Db, token: string, now: int) returns (k: nat)
    requires SessionsOwned(db)
    requires Refresh(env, db, token, now).Success?
    ensures HoldsUniquely(db.sessions, token, k) && db.sessions[k].isActive
    ensures Rewritten(env.jwt, db, k, now, Refresh(env, db, token, now).value.0, Refresh(env, db, token, now).value.1)
  {
    k := SessionByRefreshToken(db.sessions, token).index;
  }

  /** A usable token held alone by an active, unexpired session refreshes that session. */
  lemma RefreshSucceeds(env: Env, db: Db, token: string, k: nat, now: int)
    requires SessionsOwned(db) && RefreshTokenUsable(env.jwt, token, now)
    requires HoldsUniquely(db.sessions, token, k)
    requires db.sessions[k].isActive && db.sessions[k].refreshTokenExpiresAt >= now
    ensures Refresh(env, db, token, now).Success?
    ensures Rewritten(env.jwt, db, k, now, Refresh(env, db, token, now).value.0, Refresh(env, db, token, now).value.1)
  {
    SoleHolder(db.sessions, token, k);
    assert SessionByRefreshToken(db.sessions, token) == Seqs.Unique(k);
  }

  /** `register`: refuse a phone number already taken, create the user, then open one
      session exactly as login does. */
  function Register(env: Env, db: Db, phone: string, password: string, userType: Option<string>,
                    deviceInfo: Option<string>, now: int)
    : (r: Result<(Db, LoginResponse), AuthError>)
    ensures r.Failure? <==> exists j :: 0 <= j < |db.users| && db.users[j].phoneNumber == phone
    ensures r.Failure? ==> r.error == PhoneNumberAlreadyExists
    ensures r.Success? ==>
      var (users', u) := CreateUser(env.hasher, db.users, phone, password, userType).value;
      var (db', resp) := r.value;
      && CreateUser(env.hasher, db.users, phone, password, userType).Success?
      && db'.users == users' && db'.partners == db.partners
      && Opened(env.jwt, db.sessions, db'.sessions, u, deviceInfo, now, resp)
      && resp.user == MapToUserResponse(u, db.partners)
  {
    if ExistsByPhoneNumber(db.users, phone) then
      assert db.users[UserIndexByPhone(db.users, phone).value].phoneNumber == phone;
      Failure(PhoneNumberAlreadyExists)
    else
      match CreateUser(env.hasher, db.users, phone, password, userType)
      case Failure(_) => Failure(PhoneNumberAlreadyExists)
      case Success((users', u)) => Success(OpenSession(env.jwt, db.(users := users'), u, deviceInfo, now))
  }

  // Properties relating several calls.

  /** Appending a session for an existing user keeps the database well formed. */
  lemma OpenedPreservesWf(cfg: JwtConfig, db: Db, sessions': seq<Session>, u: User,
                          deviceInfo: Option<string>, now: int, resp: LoginResponse)
    requires Wf(db) && u in db.users
    requires Opened(cfg, db.sessions, sessions', u, deviceInfo, now, resp)
    ensures Wf(db.(sessions := sessions'))
  {
    var n := |db.sessions|;
    assert forall k :: 0 <= k < n ==> sessions'[k] == db.sessions[k] by {
      forall k | 0 <= k < n ensures sessions'[k] == db.sessions[k] {
        assert sessions'[..n][k] == sessions'[k];
      }
    }
  }

  lemma LoginPreservesWf(env: Env, db: Db, phone: string, password: string, deviceInfo: Option<string>, now: int)
    requires Wf(db)
    requires Login(env, db, phone, password, deviceInfo, now).Success?
    ensures Wf(Login(env, db, phone, password, deviceInfo, now).value.0)
  {
    var u := Authenticate(env.hasher, db.users, phone, password).value;
    var (db', resp) := Login(env, db, phone, password, deviceInfo, now).value;
    OpenedPreservesWf(env.jwt, db, db'.sessions, u, deviceInfo, now, resp);
    assert db' == db.(sessions := db'.sessions);
  }

  lemma RefreshPreservesWf(env: Env, db: Db, token: string, now: int)
    requires Wf(db)
    requires Refresh(env, db, token, now).Success?
    ensures Wf(Refresh(env, db, token, now).value.0)
  {
  }

  lemma RegisterPreservesWf(env: Env, db: Db, phone: string, password: string, userType: Option<string>,
                            deviceInfo: Option<string>, now: int)
    requires Wf(db)
    requires Register(env, db, phone, password, userType, deviceInfo, now).Success?
    ensures Wf(Register(env, db, phone, password, userType, deviceInfo, now).value.0)
  {
    var (users', u) := CreateUser(env.hasher, db.users, phone, password, userType).value;
    var (db', resp) := Register(env, db, phone, password, userType, deviceInfo, now).value;
    CreateUserPreservesUniqueness(env.hasher, db.users, phone, password, userType);
    var mid := db.(users := users');
    assert forall k :: 0 <= k < |db.users| ==> users'[k] == db.users[k];
    assert Wf(mid) by {
      assert forall k :: 0 <= k < |db.partners| ==> db.partners[k].userId != u.id;
    }
    assert u in mid.users by { assert users'[|db.users|] == u; }
    OpenedPreservesWf(env.jwt, mid, db'.sessions, u, deviceInfo, now, resp);
    assert db' == mid.(sessions := db'.sessions);
  }

  /** After a successful refresh the old refresh token finds no session any more,
      unless the regenerated token is the very same string. */
  lemma OldRefreshTokenRetired(env: Env, db: Db, token: string, now: int)
    requires SessionsOwned(db)
    requires Refresh(env, db, token, now).Success?
    requires Refresh(env, db, token, now).value.1.refreshToken != token
    ensures SessionByRefreshToken(Refresh(env, db, token, now).value.0.sessions, token).NoMatch?
  {
    var (db', resp) := Refresh(env, db, token, now).value;
    var k := RefreshedRow(env, db, token, now);
    assert forall j :: 0 <= j < |db'.sessions| ==> db'.sessions[j].refreshToken != token by {
      forall j | 0 <= j < |db'.sessions| ensures db'.sessions[j].refreshToken != token {
        if j != k {
          assert db'.sessions[j] == db.sessions[j];
        }
      }
    }
  }

  /** Tokens issued at `iat` for `u` under a sound codec: the refresh token is usable up
      to and including second `iat + refreshTtl`. */
  lemma IssuedRefreshTokenUsable(cfg: JwtConfig, u: User, iat: int, now: int)
    requires SoundCodec(cfg.codec)
    requires now <= iat + cfg.refreshTtl
    ensures RefreshTokenUsable(cfg, GenerateRefreshToken(cfg, u.id, u.phoneNumber, iat), now)
  {
    TokenLifetime(cfg, u.id, u.phoneNumber, iat, now);
    TokenClasses(cfg, u.id, u.phoneNumber, iat, now);
  }

  /** A refresh token fresh from login refreshes successfully until it expires, as long
      as no earlier session holds the same token string. The refreshed session is the
      one login opened. */
  lemma LoginThenRefresh(env: Env, db: Db, phone: string, password: string, deviceInfo: Option<string>,
                         t0: int, t1: int)
    requires SoundCodec(env.jwt.codec)
    requires SessionsOwned(db)
    requires Login(env, db, phone, password, deviceInfo, t0).Success?
    requires var token := Login(env, db, phone, password, deviceInfo, t0).value.1.refreshToken;
             forall j :: 0 <= j < |db.sessions| ==> db.sessions[j].refreshToken != token
    requires t0 <= t1 <= t0 + env.jwt.refreshTtl
    ensures var (db', resp) := Login(env, db, phone, password, deviceInfo, t0).value;
            SessionsOwned(db') &&
            Refresh(env, db', resp.refreshToken, t1).Success? &&
            Refresh(env, db', resp.refreshToken, t1).value.1.sessionId == resp.sessionId
  {
    var u := Authenticate(env.hasher, db.users, phone, password).value;
    var (db', resp) := Login(env, db, phone, password, deviceInfo, t0).value;
    var n := |db.sessions|;
    assert forall k :: 0 <= k < n ==> db'.sessions[k] == db.sessions[k] by {
      forall k | 0 <= k < n ensures db'.sessions[k] == db.sessions[k] {
        assert db'.sessions[..n][k] == db'.sessions[k];
      }
    }
    assert HasUser(db'.users, u.id) by {
      var i :| 0 <= i < |db.users| && db.users[i] == u;
    }
    assert SessionsOwned(db');
    IssuedRefreshTokenUsable(env.jwt, u, t0, t1);
    assert HoldsUniquely(db'.sessions, resp.refreshToken, n);
    RefreshSucceeds(env, db', resp.refreshToken, n, t1);
  }

  /** A refresh in the same second as the login that issued the token hands back the
      identical refresh token: signing is deterministic. */
  lemma SameSecondRefreshKeepsToken(env: Env, db: Db, phone: string, password: string,
                                    deviceInfo: Option<string>, now: int)
    requires SoundCodec(env.jwt.codec)
    requires SessionsOwned(db) && UniqueIds(db.users)
    requires env.jwt.refreshTtl >= 0
    requires Login(env, db, phone, password, deviceInfo, now).Success?
    requires var token := Login(env, db, phone, password, deviceInfo, now).value.1.refreshToken;
             forall j :: 0 <= j < |db.sessions| ==> db.sessions[j].refreshToken != token
    ensures var (db', resp) := Login(env, db, phone, password, deviceInfo, now).value;
            SessionsOwned(db') &&
            Refresh(env, db', resp.refreshToken, now).Success? &&
            Refresh(env, db', resp.refreshToken, now).value.1.refreshToken == resp.refreshToken
  {
    LoginThenRefresh(env, db, phone, password, deviceInfo, now, now);
    var u := Authenticate(env.hasher, db.users, phone, password).value;
    var (db', resp) := Login(env, db, phone, password, deviceInfo, now).value;
    var n := |db.sessions|;
    assert db'.sessions[n].refreshToken == resp.refreshToken;
    var (db'', resp') := Refresh(env, db', resp.refreshToken, now).value;
    var k := RefreshedRow(env, db', resp.refreshToken, now);
    assert k == n;
    var o := OwnerOf(db', k);
    assert o == u by {
      var i :| 0 <= i < |db.users| && db.users[i] == o;
      var j :| 0 <= j < |db.users| && db.users[j] == u;
      assert db.users[i].id == db.users[j].id;
    }
  }

  /** Two logins of the same account in the same second store the same refresh token
      twice, after which refreshing with it fails in the repository lookup. */
  lemma SameSecondLoginsBlockRefresh(env: Env, db: Db, phone: string, password: string,
                                     d1: Option<string>, d2: Option<string>, now: int)
    requires UniqueIds(db.users)
    requires Login(env, db, phone, password, d1, now).Success?
    ensures var (db1, resp1) := Login(env, db, phone, password, d1, now).value;
            Login(env, db1, phone, password, d2, now).Success? &&
            var (db2, resp2) := Login(env, db1, phone, password, d2, now).value;
            resp2.refreshToken == resp1.refreshToken &&
            (SessionsOwned(db2) && RefreshTokenUsable(env.jwt, resp1.refreshToken, now) ==>
               Refresh(env, db2, resp1.refreshToken, now) == Failure(NonUniqueSession))
  {
    var (db1, resp1) := Login(env, db, phone, password, d1, now).value;
    assert db1.users == db.users;
    var (db2, resp2) := Login(env, db1, phone, password, d2, now).value;
    var n := |db.sessions|;
    assert db2.sessions[..n + 1] == db1.sessions;
    assert db2.sessions[n] == db1.sessions[n] by {
      assert db2.sessions[..n + 1][n] == db2.sessions[n];
    }
    assert db2.sessions[n].refreshToken == db2.sessions[n + 1].refreshToken;
  }

  /** A freshly registered account can log in with the password it registered. */
  lemma RegisterThenLogin(env: Env, db: Db, phone: string, password: string, userType: Option<string>,
                          d1: Option<string>, d2: Option<string>, t0: int, t1: int)
    requires SoundHasher(env.hasher)
    requires Wf(db)
    requires Register(env, db, phone, password, userType, d1, t0).Success?
    ensures Login(env, Register(env, db, phone, password, userType, d1, t0).value.0, phone, password, d2, t1).Success?
  {
    CreatedUserAuthenticates(env.hasher, db.users, phone, password, userType);
  }

  /** A phone number can be registered once: registering it again is refused. */
  lemma RegisterTwice(env: Env, db: Db, phone: string, p1: string, p2: string, ut1: Option<string>,
                      ut2: Option<string>, d1: Option<string>, d2: Option<string>, t0: int, t1: int)
    requires Register(env, db, phone, p1, ut1, d1, t0).Success?
    ensures Register(env, Register(env, db, phone, p1, ut1, d1, t0).value.0, phone, p2, ut2, d2, t1)
            == Failure(PhoneNumberAlreadyExists)
  {
    var (users', u) := CreateUser(env.hasher, db.users, phone, p1, ut1).value;
    assert users'[|db.users|].phoneNumber == phone;
  }

  /** Every session's refresh token was signed with an `exp` claim equal to the
      session's stored refresh expiry. */
  ghost predicate ExpiriesAgree(cfg: JwtConfig, sessions: seq<Session>) {
    forall k :: 0 <= k < |sessions| ==>
      exists c :: cfg.codec.sign(c) == sessions[k].refreshToken && c.exp == sessions[k].refreshTokenExpiresAt
  }

  /** While stored expiries agree with the tokens (one clock reading per operation), the
      stored-expiry check of `refreshToken` never fires: an expired token is already
      refused as invalid. */
  lemma StoredExpiryCheckUnreachable(env: Env, db: Db, token: string, now: int)
    requires SoundCodec(env.jwt.codec)
    requires SessionsOwned(db)
    requires ExpiriesAgree(env.jwt, db.sessions)
    ensures Refresh(env, db, token, now) != Failure(RefreshTokenExpired)
  {
  }

  /** A session opened or rotated carries a refresh token signed with its stored expiry. */
  lemma IssuedSessionAgrees(cfg: JwtConfig, s: Session, u: User, now: int)
    requires IssuedFor(cfg, s, u, now)
    ensures exists c :: cfg.codec.sign(c) == s.refreshToken && c.exp == s.refreshTokenExpiresAt
  {
    var c := IssueClaims(u.id, u.phoneNumber, RefreshType, cfg.refreshTtl, now);
    assert cfg.codec.sign(c) == s.refreshToken;
  }

  lemma OpenedKeepsExpiriesAgreeing(cfg: JwtConfig, before: seq<Session>, after: seq<Session>, u: User,
                                    deviceInfo: Option<string>, now: int, resp: LoginResponse)
    requires ExpiriesAgree(cfg, before)
    requires Opened(cfg, before, after, u, deviceInfo, now, resp)
    ensures ExpiriesAgree(cfg, after)
  {
    var n := |before|;
    IssuedSessionAgrees(cfg, after[n], u, now);
    forall k | 0 <= k < n ensures after[k] == before[k] {
      assert after[..n][k] == after[k];
    }
  }

  lemma LoginKeepsExpiriesAgreeing(env: Env, db: Db, phone: string, password: string, deviceInfo: Option<string>, now: int)
    requires ExpiriesAgree(env.jwt, db.sessions)
    requires Login(env, db, phone, password, deviceInfo, now).Success?
    ensures ExpiriesAgree(env.jwt, Login(env, db, phone, password, deviceInfo, now).value.0.sessions)
  {
    var u := Authenticate(env.hasher, db.users, phone, password).value;
    var (db', resp) := Login(env, db, phone, password, deviceInfo, now).value;
    OpenedKeepsExpiriesAgreeing(env.jwt, db.sessions, db'.sessions, u, deviceInfo, now, resp);
  }

  lemma RegisterKeepsExpiriesAgreeing(env: Env, db: Db, phone: string, password: string, userType: Option<string>,
                                      deviceInfo: Option<string>, now: int)
    requires ExpiriesAgree(env.jwt, db.sessions)
    requires Register(env, db, phone, password, userType, deviceInfo, now).Success?
    ensures ExpiriesAgree(env.jwt, Register(env, db, phone, password, userType, deviceInfo, now).value.0.sessions)
  {
    var (users', u) := CreateUser(env.hasher, db.users, phone, password, userType).value;
    var (db', resp) := Register(env, db, phone, password, userType, deviceInfo, now).value;
    OpenedKeepsExpiriesAgreeing(env.jwt, db.sessions, db'.sessions, u, deviceInfo, now, resp);
  }

  lemma RefreshKeepsExpiriesAgreeing(env: Env, db: Db, token: string, now: int)
    requires SessionsOwned(db)
    requires ExpiriesAgree(env.jwt, db.sessions)
    requires Refresh(env, db, token, now).Success?
    ensures ExpiriesAgree(env.jwt, Refresh(env, db, token, now).value.0.sessions)
  {
    var (db', resp) := Refresh(env, db, token, now).value;
    var k := RefreshedRow(env, db, token, now);
    IssuedSessionAgrees(env.jwt, db'.sessions[k], OwnerOf(db, k), now);
    forall j | 0 <= j < |db'.sessions|
      ensures exists c :: env.jwt.codec.sign(c) == db'.sessions[j].refreshToken && c.exp == db'.sessions[j].refreshTokenExpiresAt
    {
      if j != k {
        assert db'.sessions[j] == db.sessions[j];
      }
    }
  }
}
