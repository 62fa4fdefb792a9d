/**
 * JwtService: what an access or refresh token carries, how a token is read back, and the
 * validity rules the services and the request filter apply. Signing is not modelled: a
 * token either carries the claims it was minted with (`Signed`) or fails to parse (`Bad`,
 * which stands for a forged, malformed or wrongly signed string).
 */
module Jwt {
  import opened Wrappers
  import opened Errors

  datatype TokenType = ACCESS | REFRESH

  /** The text of `UUID.toString()`; the table of revoked tokens is keyed by it. */
  type Uuid = string

  /**
   * The payload of a token. `sub` and `typ` are optional because reading an absent claim
   * yields null; `roles` is the list claim read back as the set of its elements, with null
   * elements kept as `None`. Instants are milliseconds since the epoch.
   */
  datatype Claims = Claims(
    sub: Option<string>,
    typ: Option<TokenType>,
    roles: Option<set<Option<string>>>,
    jti: Option<Uuid>,
    iat: int,
    exp: int)

  datatype Token = Signed(claims: Claims) | Bad

  /** The two configured lifetimes (`security.jwt.expiration-ms.access` and `.refresh`). */
  datatype JwtConfig = JwtConfig(accessExpirationMs: int, refreshExpirationMs: int)

  /** `Date.before`: strictly earlier. */
  predicate Before(a: int, b: int) { a < b }

  /** A token whose `exp` has not passed at `now`; an expiry equal to now is still good. */
  predicate Unexpired(c: Claims, now: int) { !Before(c.exp, now) }

  // ---------------------------------------------------------------- minting

  /** The claims `generateToken` puts into a token of the given type. */
  function MintedClaims(username: string, authorities: set<string>, tokenType: TokenType,
                        expirationMs: int, now: int, freshJti: Uuid): Claims
  {
    Claims(
      Some(username),
      Some(tokenType),
      if tokenType == ACCESS then Some(set a | a in authorities :: Some(a)) else None,
      if tokenType == REFRESH then Some(freshJti) else None,
      now,
      now + expirationMs)
  }

  /**
   * `generateToken`: the type claim always, a fresh `jti` only for refresh tokens, the
   * authority names only for access tokens, then subject, issue and expiry instants.
   * The random UUID and the clock are parameters.
   */
  method GenerateToken(username: string, authorities: set<string>, tokenType: TokenType,
                       expirationMs: int, now: int, freshJti: Uuid) returns (t: Token)
    ensures t.Signed? && t == Signed(MintedClaims(username, authorities, tokenType, expirationMs, now, freshJti))
    ensures t.claims.typ == Some(tokenType) && t.claims.sub == Some(username)
    ensures t.claims.iat == now && t.claims.exp == t.claims.iat + expirationMs
    ensures tokenType == ACCESS ==>
              && t.claims.jti.None? && t.claims.roles.Some?
              && (forall r :: r in t.claims.roles.value ==> r.Some? && r.value in authorities)
              && (forall a :: a in authorities ==> Some(a) in t.claims.roles.value)
    ensures tokenType == REFRESH ==> t.claims.jti == Some(freshJti) && t.claims.roles.None?
  {
    var typ := Some(tokenType);
    var jti: Option<Uuid> := None;
    var roles: Option<set<Option<string>>> := None;
    if tokenType == REFRESH {
      jti := Some(freshJti);
    }
    if tokenType == ACCESS {
      roles := Some(set a | a in authorities :: Some(a));
    }
    t := Signed(Claims(Some(username), typ, roles, jti, now, now + expirationMs));
  }

  /** `generateAccessToken`: an access token with the configured access lifetime. */
  method GenerateAccessToken(config: JwtConfig, username: string, authorities: set<string>, now: int)
    returns (t: Token)
    ensures t == Signed(MintedClaims(username, authorities, ACCESS, config.accessExpirationMs, now, ""))
    ensures t.claims.exp == now + config.accessExpirationMs && t.claims.jti.None?
  {
    t := GenerateToken(username, authorities, ACCESS, config.accessExpirationMs, now, "");
  }

  /** `generateRefreshToken`: a refresh token with the configured refresh lifetime and a fresh `jti`. */
  method GenerateRefreshToken(config: JwtConfig, username: string, now: int, freshJti: Uuid)
    returns (t: Token)
    ensures t == Signed(MintedClaims(username, {}, REFRESH, config.refreshExpirationMs, now, freshJti))
    ensures t.claims.exp == now + config.refreshExpirationMs && t.claims.jti == Some(freshJti)
  {
    t := GenerateToken(username, {}, REFRESH, config.refreshExpirationMs, now, freshJti);
  }

  // ---------------------------------------------------------------- reading

  /**
   * `extractAllClaims`: an expired token becomes TOKEN_EXPIRED, any other parse failure
   * UNAUTHORIZED.
   */
  function ExtractAllClaims(token: Token, now: int): (r: Result<Claims, ErrorCode>)
    ensures r.Success? <==> token.Signed? && Unexpired(token.claims, now)
    ensures r.Success? ==> r.value == token.claims
    ensures r.Failure? ==> (r.error == TOKEN_EXPIRED <==> token.Signed?)
    ensures r.Failure? ==> r.error in {TOKEN_EXPIRED, UNAUTHORIZED}
  {
    match token
    case Bad => Failure(UNAUTHORIZED)
    case Signed(c) => if Before(c.exp, now) then Failure(TOKEN_EXPIRED) else Success(c)
  }

  /** `extractClaim`: applies a reader to the decoded claims; decoding errors propagate as AppException. */
  function ExtractClaims(token: Token, now: int): Result<Claims, Fault>
  {
    match ExtractAllClaims(token, now)
    case Failure(e) => Failure(App(e))
    case Success(c) => Success(c)
  }

  /** `extractUsername`: the subject, possibly null. */
  function ExtractUsername(token: Token, now: int): Result<Option<string>, Fault>
  {
    match ExtractClaims(token, now)
    case Failure(e) => Failure(e)
    case Success(c) => Success(c.sub)
  }

  /** `extractTokenType`: the type claim, possibly null. */
  function ExtractTokenType(token: Token, now: int): Result<Option<TokenType>, Fault>
  {
    match ExtractClaims(token, now)
    case Failure(e) => Failure(e)
    case Success(c) => Success(c.typ)
  }

  /** `extractJti`: `UUID.fromString(null)` throws, so a token without `jti` fails. */
  function ExtractJti(token: Token, now: int): (r: Result<Uuid, Fault>)
    ensures r.Success? <==> token.Signed? && Unexpired(token.claims, now) && token.claims.jti.Some?
    ensures r.Success? ==> r.value == token.claims.jti.value
  {
    match ExtractClaims(token, now)
    case Failure(e) => Failure(e)
    case Success(c) => if c.jti.None? then Failure(NullPointer) else Success(c.jti.value)
  }

  /** `extractExpiration`. */
  function ExtractExpiration(token: Token, now: int): Result<int, Fault>
  {
    match ExtractClaims(token, now)
    case Failure(e) => Failure(e)
    case Success(c) => Success(c.exp)
  }

  /**
   * `extractRoles`: the non-null elements of the roles claim, as a set; a token without the
   * claim fails with a null dereference.
   */
  function ExtractRoles(token: Token, now: int): (r: Result<set<string>, Fault>)
    ensures r.Success? <==> token.Signed? && Unexpired(token.claims, now) && token.claims.roles.Some?
    ensures r.Success? ==> forall x :: x in r.value <==> Some(x) in token.claims.roles.value
    ensures r.Failure? && token.Signed? && Unexpired(token.claims, now) ==> r.error == NullPointer
  {
    match ExtractClaims(token, now)
    case Failure(e) => Failure(e)
    case Success(c) =>
      if c.roles.None? then Failure(NullPointer)
      else Success(set o | o in c.roles.value && o.Some? :: o.value)
  }

  // ---------------------------------------------------------------- validity

  /**
   * `isTokenExpired`: `exp` before now. Decoding has already rejected an expired token with
   * TOKEN_EXPIRED, so this never answers true.
   */
  function IsTokenExpired(token: Token, now: int): (r: Result<bool, Fault>)
    ensures r != Success(true)
    ensures r == Success(false) <==> token.Signed? && Unexpired(token.claims, now)
  {
    match ExtractExpiration(token, now)
    case Failure(e) => Failure(e)
    case Success(exp) => Success(Before(exp, now))
  }

  /**
   * `isTokenValid`: the subject equals the given username and the token is not expired.
   * A null subject is dereferenced and fails.
   */
  function IsTokenValid(token: Token, username: string, now: int): (r: Result<bool, Fault>)
    ensures r == Success(true) <==> token.Signed? && Unexpired(token.claims, now) && token.claims.sub == Some(username)
    ensures r.Failure? && token.Signed? && Unexpired(token.claims, now) ==> r.error == NullPointer
  {
    match ExtractUsername(token, now)
    case Failure(e) => Failure(e)
    case Success(sub) =>
      if sub.None? then Failure(NullPointer)
      else if sub.value == username then
        match IsTokenExpired(token, now)
        case Failure(e) => Failure(e)
        case Success(expired) => Success(!expired)
      else Success(false)
  }

  /**
   * `isRefreshTokenValid`: reads the type, then looks the `jti` up in the revoked table, then
   * checks type, expiry and revocation in that order; every exception becomes false.
   */
  function IsRefreshTokenValid(token: Token, revoked: set<Uuid>, now: int): bool
  {
    match ExtractTokenType(token, now)
    case Failure(_) => false
    case Success(tokenType) =>
      match ExtractJti(token, now)
      case Failure(_) => false
      case Success(jti) =>
        var isRevoked := jti in revoked;
        if tokenType != Some(REFRESH) then false
        else match IsTokenExpired(token, now)
          case Failure(_) => false
          case Success(expired) => !expired && !isRevoked
  }

  /** `isAccessTokenValid`: type ACCESS and `isTokenValid`; every exception becomes false. */
  function IsAccessTokenValid(token: Token, username: string, now: int): bool
  {
    match ExtractTokenType(token, now)
    case Failure(_) => false
    case Success(tokenType) =>
      tokenType == Some(ACCESS) &&
      match IsTokenValid(token, username, now)
      case Failure(_) => false
      case Success(valid) => valid
  }

  // ---------------------------------------------------------------- properties

  /** A refresh token is accepted exactly when it parses, is REFRESH-typed, unexpired and not revoked. */
  lemma RefreshValidIff(token: Token, revoked: set<Uuid>, now: int)
    ensures IsRefreshTokenValid(token, revoked, now) <==>
      && token.Signed?
      && token.claims.typ == Some(REFRESH)
      && Unexpired(token.claims, now)
      && token.claims.jti.Some?
      && token.claims.jti.value !in revoked
  {
  }

  /** An access token is accepted exactly when it parses, is ACCESS-typed, unexpired and names the user. */
  lemma AccessValidIff(token: Token, username: string, now: int)
    ensures IsAccessTokenValid(token, username, now) <==>
      && token.Signed?
      && token.claims.typ == Some(ACCESS)
      && Unexpired(token.claims, now)
      && token.claims.sub == Some(username)
  {
  }

  /** A minted access token is never accepted as a refresh token, whatever is revoked. */
  lemma AccessNeverRefresh(username: string, authorities: set<string>, ttl: int, iat: int,
                           jti: Uuid, revoked: set<Uuid>, now: int)
    ensures !IsRefreshTokenValid(Signed(MintedClaims(username, authorities, ACCESS, ttl, iat, jti)), revoked, now)
    ensures ExtractJti(Signed(MintedClaims(username, authorities, ACCESS, ttl, iat, jti)), now).Failure?
  {
  }

  /** A revoked `jti` makes every token carrying it invalid as a refresh token. */
  lemma RevokedNeverValid(token: Token, revoked: set<Uuid>, now: int)
    requires token.Signed? && token.claims.jti.Some? && token.claims.jti.value in revoked
    ensures !IsRefreshTokenValid(token, revoked, now)
  {
  }

  /**
   * Reading a minted token back gives what was put in, for as long as it lives: its subject,
   * its authorities (access) and its validity as access or refresh token.
   */
  lemma MintedRoundTrip(username: string, authorities: set<string>, tokenType: TokenType,
                        ttl: int, iat: int, jti: Uuid, revoked: set<Uuid>, now: int)
    requires iat <= now <= iat + ttl
    ensures var t := Signed(MintedClaims(username, authorities, tokenType, ttl, iat, jti));
      && ExtractUsername(t, now) == Success(Some(username))
      && ExtractTokenType(t, now) == Success(Some(tokenType))
      && (tokenType == ACCESS ==> ExtractRoles(t, now) == Success(authorities))
      && (tokenType == ACCESS <==> IsAccessTokenValid(t, username, now))
      && (tokenType == REFRESH ==> (IsRefreshTokenValid(t, revoked, now) <==> jti !in revoked))
  {
    var t := Signed(MintedClaims(username, authorities, tokenType, ttl, iat, jti));
    if tokenType == ACCESS {
      var r := ExtractRoles(t, now);
      assert r.Success?;
      forall x ensures x in r.value <==> x in authorities {
        assert x in authorities ==> Some(x) in t.claims.roles.value;
      }
      assert r.value == authorities;
    }
  }

  /** Past its expiry every token is rejected by both validity rules. */
  lemma ExpiredRejected(token: Token, username: string, revoked: set<Uuid>, now: int)
    requires token.Signed? && token.claims.exp < now
    ensures !IsAccessTokenValid(token, username, now) && !IsRefreshTokenValid(token, revoked, now)
    ensures ExtractAllClaims(token, now) == Failure(TOKEN_EXPIRED)
  {
  }
}
