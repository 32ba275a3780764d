/** The token filter that runs once per request: it reads the bearer token from the
    `Authorization` header and, when the token is a live access token of a stored
    user, attaches that user as the request's principal. */
module RequestIdentity {
  import opened Wrappers
  import opened Entities
  import opened Jwt
  import Text

  const BearerPrefix: string := "Bearer "

  /** `extractTokenFromRequest`: the header without its first seven characters when it
      has text and starts with "Bearer " (case-sensitive); no token otherwise. */
  function ExtractToken(header: Option<string>): (r: Option<string>)
    ensures r.Some? ==> header.Some? && header.value == BearerPrefix + r.value
  {
    if header.Some? && Text.HasText(header.value) && Text.StartsWith(header.value, BearerPrefix) then
      assert header.value == header.value[..7] + header.value[7..];
      Some(header.value[|BearerPrefix|..])
    else None
  }

  /** Round trip: whatever follows "Bearer " is the token extracted. */
  lemma BearerRoundTrip(token: string)
    ensures ExtractToken(Some(BearerPrefix + token)) == Some(token)
  {
    var h := BearerPrefix + token;
    assert h[0] == 'B' && !Text.IsJavaWhitespace(h[0]);
    assert h[..|BearerPrefix|] == BearerPrefix;
    assert h[|BearerPrefix|..] == token;
  }

  /** A header is read as a token exactly when it is "Bearer " followed by something
      (possibly nothing). */
  lemma ExtractTokenIff(header: Option<string>, token: string)
    ensures ExtractToken(header) == Some(token) <==> header == Some(BearerPrefix + token)
  {
    if header == Some(BearerPrefix + token) {
      BearerRoundTrip(token);
    }
  }

  /** No header, and a scheme spelled in lower case, give no token. */
  lemma NonBearerHeadersIgnored(token: string)
    ensures ExtractToken(None).None?
    ensures ExtractToken(Some("bearer " + token)).None?
  {
    var h := "bearer " + token;
    assert h[0] == 'b';
    assert h[..|BearerPrefix|] != BearerPrefix by {
      if |h| >= |BearerPrefix| {
        assert h[..|BearerPrefix|][0] != BearerPrefix[0];
      }
    }
  }

  /** The attach-identity decision: a token is present, has not expired and is not of
      the refresh class. */
  predicate Attachable(cfg: JwtConfig, token: string, now: int) {
    !IsTokenExpired(cfg, token, now) && !IsRefreshToken(cfg, token, now)
  }

  /** The principal the filter attaches, if any: the stored user whose id is the token's
      subject. A subject with no user attaches nothing, and any exception on the way is
      swallowed; the request always goes on down the chain. Only the token and the user
      table are consulted, never a session row. */
  function ResolveIdentity(cfg: JwtConfig, users: seq<User>, header: Option<string>, now: int): (r: Option<User>)
    ensures r.Some? ==>
      && ExtractToken(header).Some?
      && Attachable(cfg, ExtractToken(header).value, now)
      && r.value in users
      && ExtractUserId(cfg, ExtractToken(header).value, now) == Some(r.value.id)
  {
    match ExtractToken(header)
    case None => None
    case Some(token) =>
      if IsTokenExpired(cfg, token, now) || IsRefreshToken(cfg, token, now) then None
      else
        match ExtractUserId(cfg, token, now)
        case None => None
        case Some(id) =>
          match UserIndexById(users, id)
          case None => None
          case Some(i) => Some(users[i])
  }

  /** A live access token of a stored user resolves to that user, from its issuing
      second to its expiry second inclusive. */
  lemma AccessTokenResolves(cfg: JwtConfig, users: seq<User>, u: User, iat: int, now: int)
    requires SoundCodec(cfg.codec)
    requires UniqueIds(users) && u in users
    requires now <= iat + cfg.accessTtl
    ensures ResolveIdentity(cfg, users, Some(BearerPrefix + GenerateAccessToken(cfg, u.id, u.phoneNumber, iat)), now) == Some(u)
  {
    var token := GenerateAccessToken(cfg, u.id, u.phoneNumber, iat);
    BearerRoundTrip(token);
    TokenLifetime(cfg, u.id, u.phoneNumber, iat, now);
    TokenClasses(cfg, u.id, u.phoneNumber, iat, now);
    ExtractUserIdRoundTrip(cfg, u.id, u.phoneNumber, iat, now);
    var k :| 0 <= k < |users| && users[k] == u;
    UserIndexByIdUnique(users, u.id, k);
  }

  /** An access token past its expiry, a refresh token, and the bare "Bearer " header
      never attach an identity. */
  lemma RejectedTokensAnonymous(cfg: JwtConfig, users: seq<User>, u: User, iat: int, now: int)
    requires SoundCodec(cfg.codec)
    ensures now > iat + cfg.accessTtl ==>
            ResolveIdentity(cfg, users, Some(BearerPrefix + GenerateAccessToken(cfg, u.id, u.phoneNumber, iat)), now).None?
    ensures ResolveIdentity(cfg, users, Some(BearerPrefix + GenerateRefreshToken(cfg, u.id, u.phoneNumber, iat)), now).None?
    ensures ResolveIdentity(cfg, users, Some(BearerPrefix), now).None?
  {
    BearerRoundTrip(GenerateAccessToken(cfg, u.id, u.phoneNumber, iat));
    BearerRoundTrip(GenerateRefreshToken(cfg, u.id, u.phoneNumber, iat));
    BearerRoundTrip("");
    assert BearerPrefix + "" == BearerPrefix;
    TokenLifetime(cfg, u.id, u.phoneNumber, iat, now);
    TokenClasses(cfg, u.id, u.phoneNumber, iat, now);
    EmptyTokenRejected(cfg, now);
  }

  /** A token whose subject has no stored user attaches nothing. */
  lemma MissingUserAnonymous(cfg: JwtConfig, users: seq<User>, header: Option<string>, now: int)
    requires ExtractToken(header).Some?
    requires var id := ExtractUserId(cfg, ExtractToken(header).value, now);
             id.Some? && !HasUser(users, id.value)
    ensures ResolveIdentity(cfg, users, header, now).None?
  {
  }
}

/** The security filter chain: stateless, the token filter runs before authorisation,
    three public path patterns, and every other request needs a principal. */
module Security {
  import opened Wrappers
  import opened Entities
  import opened Jwt
  import Text
  import RequestIdentity

  /** The bases of the three public patterns; each pattern is its base followed by a
      slash and a double star. */
  const AuthBase: string := "/api/v1/auth"
  const FilesBase: string := "/api/v1/files"
  const ActuatorBase: string := "/actuator"

  /** A base-plus-double-star pattern matches the base itself and everything below it. */
  predicate MatchesUnder(path: string, base: string) {
    path == base || Text.StartsWith(path, base + "/")
  }

  predicate IsPublic(path: string) {
    MatchesUnder(path, AuthBase) || MatchesUnder(path, FilesBase) || MatchesUnder(path, ActuatorBase)
  }

  datatype Decision = Permit | Deny

  /** `permitAll` for the public patterns, `authenticated` for any other request. */
  function Authorize(path: string, principal: Option<User>): (d: Decision)
    ensures d == Permit <==> IsPublic(path) || principal.Some?
  {
    if IsPublic(path) then Permit
    else if principal.Some? then Permit
    else Deny
  }

  /** One request through the chain: the token filter derives the principal afresh from
      the header (no server-side session), then authorisation decides. */
  function HandleRequest(cfg: JwtConfig, users: seq<User>, path: string, header: Option<string>, now: int): (d: Decision)
    ensures d == Permit && !IsPublic(path) ==>
            && RequestIdentity.ExtractToken(header).Some?
            && RequestIdentity.Attachable(cfg, RequestIdentity.ExtractToken(header).value, now)
            && exists u :: u in users && ExtractUserId(cfg, RequestIdentity.ExtractToken(header).value, now) == Some(u.id)
  {
    Authorize(path, RequestIdentity.ResolveIdentity(cfg, users, header, now))
  }

  /** Public paths are served whatever the header carries. */
  lemma PublicPathsOpen(cfg: JwtConfig, users: seq<User>, path: string, header: Option<string>, now: int)
    requires IsPublic(path)
    ensures HandleRequest(cfg, users, path, header, now) == Permit
  {
  }

  /** Any other path is served exactly when the filter attached a principal. */
  lemma ProtectedPathsNeedIdentity(cfg: JwtConfig, users: seq<User>, path: string, header: Option<string>, now: int)
    requires !IsPublic(path)
    ensures HandleRequest(cfg, users, path, header, now) == Permit
            <==> RequestIdentity.ResolveIdentity(cfg, users, header, now).Some?
  {
  }

  /** Which paths are public: the login endpoint and file URLs are; a path merely
      sharing a prefix with a public base, and the profile endpoint, are not. */
  lemma PublicPathExamples()
    ensures IsPublic("/api/v1/auth/login")
    ensures IsPublic("/api/v1/files/avatars/a.png")
    ensures IsPublic("/actuator")
    ensures !IsPublic("/api/v1/authx")
    ensures !IsPublic("/api/v1/users/profile")
  {
    var a := AuthBase + "/";
    var f := FilesBase + "/";
    var c := ActuatorBase + "/";
    assert "/api/v1/auth/login"[..|a|] == a;
    assert "/api/v1/files/avatars/a.png"[..|f|] == f;
    DiffersAt("/api/v1/authx", a, 12);
    DiffersAt("/api/v1/authx", f, 8);
    DiffersAt("/api/v1/authx", c, 2);
    DiffersAt("/api/v1/users/profile", a, 8);
    DiffersAt("/api/v1/users/profile", f, 8);
    DiffersAt("/api/v1/users/profile", c, 2);
  }

  /** A string differing from `prefix` at some position does not start with it. */
  lemma DiffersAt(s: string, prefix: string, i: nat)
    requires i < |s| && i < |prefix| && s[i] != prefix[i]
    ensures !Text.StartsWith(s, prefix)
  {
  }

  /** A refresh token presented as a bearer token never opens a protected path. */
  lemma RefreshTokenCannotAuthorize(cfg: JwtConfig, users: seq<User>, path: string, u: User, iat: int, now: int)
    requires SoundCodec(cfg.codec)
    requires !IsPublic(path)
    ensures HandleRequest(cfg, users, path,
              Some(RequestIdentity.BearerPrefix + GenerateRefreshToken(cfg, u.id, u.phoneNumber, iat)), now) == Deny
  {
    RequestIdentity.RejectedTokensAnonymous(cfg, users, u, iat, now);
  }
}
