/** The token service: access and refresh tokens carrying the claims
    `{sub, phoneNumber, type, iat, exp}`. Signing and verification with the
    configured secret are left uninterpreted; time is an integer clock in seconds. */
module Jwt {
  import opened Wrappers
  import opened Ids

  const AccessType: string := "access"
  const RefreshType: string := "refresh"

  /** The payload of a signed token. `typ` is the `type` claim. */
  datatype Claims = Claims(sub: Uuid, phoneNumber: string, typ: string, iat: int, exp: int)

  /** Signing and parsing with the process-wide secret (HMAC, compact serialisation):
      `sign` produces the token text; `verify(token, now)` is the parser, which returns
      the claims of a well-formed, correctly signed token and `None` for anything else,
      including a token whose `exp` is already past at `now`. */
  datatype Codec = Codec(sign: Claims -> string, verify: (string, int) -> Option<Claims>)

  /** What the token library guarantees and the model relies on: a token it produced
      parses to exactly its claims until its expiry second has passed, and the empty
      string is never a token. */
  ghost predicate SoundCodec(k: Codec) {
    && (forall c, now :: k.verify(k.sign(c), now) == if c.exp < now then None else Some(c))
    && (forall now :: k.verify("", now) == None)
  }

  /** The service configuration: the codec and the two lifetimes in seconds. */
  datatype JwtConfig = JwtConfig(codec: Codec, accessTtl: int, refreshTtl: int)

  /** Claims issued at `now` that expire `ttl` seconds later. */
  function IssueClaims(userId: Uuid, phone: string, typ: string, ttl: int, now: int): Claims {
    Claims(userId, phone, typ, now, now + ttl)
  }

  /** `generateAccessToken`: under a sound codec and a non-negative lifetime, the
      token parses back at its issue second to the access claims for the user. */
  function GenerateAccessToken(cfg: JwtConfig, userId: Uuid, phone: string, now: int): (r: string)
    ensures SoundCodec(cfg.codec) && 0 <= cfg.accessTtl ==>
            cfg.codec.verify(r, now) == Some(Claims(userId, phone, AccessType, now, now + cfg.accessTtl))
  {
    cfg.codec.sign(IssueClaims(userId, phone, AccessType, cfg.accessTtl, now))
  }

  /** `generateRefreshToken`: the same, with the refresh class and lifetime. */
  function GenerateRefreshToken(cfg: JwtConfig, userId: Uuid, phone: string, now: int): (r: string)
    ensures SoundCodec(cfg.codec) && 0 <= cfg.refreshTtl ==>
            cfg.codec.verify(r, now) == Some(Claims(userId, phone, RefreshType, now, now + cfg.refreshTtl))
  {
    cfg.codec.sign(IssueClaims(userId, phone, RefreshType, cfg.refreshTtl, now))
  }

  /** `extractUserId`: `None` models the exception thrown for a token that does not
      parse. */
  function ExtractUserId(cfg: JwtConfig, token: string, now: int): (r: Option<Uuid>)
    ensures r.Some? <==> cfg.codec.verify(token, now).Some?
    ensures r.Some? ==> r.value == cfg.codec.verify(token, now).value.sub
  {
    match cfg.codec.verify(token, now)
    case None => None
    case Some(c) => Some(c.sub)
  }

  /** `isTokenExpired`: fail-closed, so a token that does not parse counts as expired;
      otherwise expired means `exp` is strictly before `now`. */
  predicate IsTokenExpired(cfg: JwtConfig, token: string, now: int)
    ensures !IsTokenExpired(cfg, token, now) ==> ExtractUserId(cfg, token, now).Some?
  {
    match cfg.codec.verify(token, now)
    case None => true
    case Some(c) => c.exp < now
  }

  /** `isRefreshToken`: fail-false, so a token that does not parse (an expired one
      included) is not a refresh token. */
  predicate IsRefreshToken(cfg: JwtConfig, token: string, now: int)
    ensures IsRefreshToken(cfg, token, now) ==>
            ExtractUserId(cfg, token, now).Some? && cfg.codec.verify(token, now).value.typ != AccessType
  {
    match cfg.codec.verify(token, now)
    case None => false
    case Some(c) => c.typ == RefreshType
  }

  /** `getExpirationTimestamp`: the epoch second `seconds` after `now`. */
  function GetExpirationTimestamp(seconds: int, now: int): (r: int)
    ensures r - now == seconds
  {
    now + seconds
  }

  /** Signing is injective under a sound codec: distinct claims give distinct tokens. */
  lemma SignInjective(k: Codec, c1: Claims, c2: Claims)
    requires SoundCodec(k)
    requires c1 != c2
    ensures k.sign(c1) != k.sign(c2)
  {
    var t := if c1.exp < c2.exp then c1.exp else c2.exp;
    assert k.verify(k.sign(c1), t) == Some(c1);
    assert k.verify(k.sign(c2), t) == Some(c2);
  }

  /** Until it expires, an access token parses to the user's id and phone, type
      "access", and an expiry the access lifetime after its issue time. */
  lemma AccessTokenClaims(cfg: JwtConfig, userId: Uuid, phone: string, iat: int, now: int)
    requires SoundCodec(cfg.codec)
    requires now <= iat + cfg.accessTtl
    ensures cfg.codec.verify(GenerateAccessToken(cfg, userId, phone, iat), now)
            == Some(Claims(userId, phone, AccessType, iat, iat + cfg.accessTtl))
  {
  }

  /** A refresh token has the same claims except type "refresh" and the refresh
      lifetime. */
  lemma RefreshTokenClaims(cfg: JwtConfig, userId: Uuid, phone: string, iat: int, now: int)
    requires SoundCodec(cfg.codec)
    requires now <= iat + cfg.refreshTtl
    ensures cfg.codec.verify(GenerateRefreshToken(cfg, userId, phone, iat), now)
            == Some(Claims(userId, phone, RefreshType, iat, iat + cfg.refreshTtl))
  {
  }

  /** Round trip: the user id extracted from an unexpired token of either kind is the id
      it was generated for. */
  lemma ExtractUserIdRoundTrip(cfg: JwtConfig, userId: Uuid, phone: string, iat: int, now: int)
    requires SoundCodec(cfg.codec)
    ensures now <= iat + cfg.accessTtl ==>
            ExtractUserId(cfg, GenerateAccessToken(cfg, userId, phone, iat), now) == Some(userId)
    ensures now <= iat + cfg.refreshTtl ==>
            ExtractUserId(cfg, GenerateRefreshToken(cfg, userId, phone, iat), now) == Some(userId)
  {
    if now <= iat + cfg.accessTtl {
      AccessTokenClaims(cfg, userId, phone, iat, now);
    }
    if now <= iat + cfg.refreshTtl {
      RefreshTokenClaims(cfg, userId, phone, iat, now);
    }
  }

  /** Fail-closed expiry and fail-false class: whatever the clock says, a token that
      does not parse is expired and is not a refresh token. */
  lemma UnparsableTokenRejected(cfg: JwtConfig, token: string, now: int)
    requires cfg.codec.verify(token, now).None?
    ensures IsTokenExpired(cfg, token, now)
    ensures !IsRefreshToken(cfg, token, now)
    ensures ExtractUserId(cfg, token, now).None?
  {
  }

  /** The empty token (the header "Bearer " with nothing after it) is expired and not a
      refresh token. */
  lemma EmptyTokenRejected(cfg: JwtConfig, now: int)
    requires SoundCodec(cfg.codec)
    ensures IsTokenExpired(cfg, "", now)
    ensures !IsRefreshToken(cfg, "", now)
  {
    assert cfg.codec.verify("", now) == None;
  }

  /** A generated token of either kind is unexpired exactly up to and including the
      second `iat + ttl`: a token expiring exactly now is not expired. */
  lemma TokenLifetime(cfg: JwtConfig, userId: Uuid, phone: string, iat: int, now: int)
    requires SoundCodec(cfg.codec)
    ensures IsTokenExpired(cfg, GenerateAccessToken(cfg, userId, phone, iat), now)
            <==> now > iat + cfg.accessTtl
    ensures IsTokenExpired(cfg, GenerateRefreshToken(cfg, userId, phone, iat), now)
            <==> now > iat + cfg.refreshTtl
  {
    assert cfg.codec.verify(GenerateAccessToken(cfg, userId, phone, iat), now)
        == if iat + cfg.accessTtl < now then None else Some(IssueClaims(userId, phone, AccessType, cfg.accessTtl, iat));
    assert cfg.codec.verify(GenerateRefreshToken(cfg, userId, phone, iat), now)
        == if iat + cfg.refreshTtl < now then None else Some(IssueClaims(userId, phone, RefreshType, cfg.refreshTtl, iat));
  }

  /** The class check tells the two kinds apart: an access token is never a refresh
      token, and a refresh token is one exactly while it is unexpired. */
  lemma TokenClasses(cfg: JwtConfig, userId: Uuid, phone: string, iat: int, now: int)
    requires SoundCodec(cfg.codec)
    ensures !IsRefreshToken(cfg, GenerateAccessToken(cfg, userId, phone, iat), now)
    ensures IsRefreshToken(cfg, GenerateRefreshToken(cfg, userId, phone, iat), now)
            <==> now <= iat + cfg.refreshTtl
  {
    assert cfg.codec.verify(GenerateAccessToken(cfg, userId, phone, iat), now)
        == if iat + cfg.accessTtl < now then None else Some(IssueClaims(userId, phone, AccessType, cfg.accessTtl, iat));
    assert cfg.codec.verify(GenerateRefreshToken(cfg, userId, phone, iat), now)
        == if iat + cfg.refreshTtl < now then None else Some(IssueClaims(userId, phone, RefreshType, cfg.refreshTtl, iat));
  }

  /** Tokens are deterministic: the same user at the same second always gets the same
      token text, and tokens issued at different seconds differ. */
  lemma RefreshTokenDeterminism(cfg: JwtConfig, userId: Uuid, phone: string, t1: int, t2: int)
    requires SoundCodec(cfg.codec)
    ensures GenerateRefreshToken(cfg, userId, phone, t1) == GenerateRefreshToken(cfg, userId, phone, t2)
            <==> t1 == t2
  {
    if t1 != t2 {
      SignInjective(cfg.codec, IssueClaims(userId, phone, RefreshType, cfg.refreshTtl, t1),
                    IssueClaims(userId, phone, RefreshType, cfg.refreshTtl, t2));
    }
  }
}
