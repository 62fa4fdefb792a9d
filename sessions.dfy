/**
 * Token refresh and logout, which both AuthService generations implement with the same code:
 * a refresh token stays usable until logout records its `jti` in the revoked-token table.
 */
module Sessions {
  import opened Wrappers
  import opened Errors
  import opened Users
  import opened UserDetails
  import opened Jwt
  import opened Cookies

  datatype RefreshTokenResponse = RefreshTokenResponse(accessToken: Token, expiresInMS: int)

  /** A row of the revoked-token table. */
  datatype RevokedToken = RevokedToken(jti: Uuid, expiresAt: int, revokedAt: int)

  /** The name of the cookie that carries the refresh token. */
  const REFRESH_COOKIE: string := "refreshToken"

  /** The revoked-token table (RevokedTokenService and its repository), keyed by `jti`. */
  class RevokedTokenTable {
    var tokens: map<Uuid, RevokedToken>

    constructor ()
      ensures tokens == map[]
    {
      tokens := map[];
    }

    /** `save`: stores the row under its `jti`. */
    method Save(record: RevokedToken)
      modifies this
      ensures tokens == old(tokens)[record.jti := record]
    {
      tokens := tokens[record.jti := record];
    }
  }

  /**
   * `refreshToken`: a valid refresh token buys a new access token for the account its subject
   * names. The refresh token itself is neither revoked nor replaced.
   */
  method RefreshToken(config: JwtConfig, rows: seq<User>, revoked: RevokedTokenTable, token: Token, now: int)
    returns (r: Result<RefreshTokenResponse, Fault>)
    ensures !IsRefreshTokenValid(token, revoked.tokens.Keys, now) ==> r == Failure(App(REFRESH_TOKEN_INVALID))
    ensures IsRefreshTokenValid(token, revoked.tokens.Keys, now) ==>
      var sub := token.claims.sub;
      && (sub.None? ==> r == Failure(UsernameNotFound))
      && (sub.Some? ==>
            match LoadUserByUsername(rows, sub.value)
            case Failure(e) => r == Failure(e)
            case Success(u) =>
              r == Success(RefreshTokenResponse(
                     Signed(MintedClaims(u.username, u.roles, ACCESS, config.accessExpirationMs, now, "")),
                     config.accessExpirationMs)))
  {
    if !IsRefreshTokenValid(token, revoked.tokens.Keys, now) {
      return Failure(App(REFRESH_TOKEN_INVALID));
    }
    RefreshValidIff(token, revoked.tokens.Keys, now);
    var username := ExtractUsername(token, now);
    if username.value.None? {
      // `loadUserByUsername(null)` matches no row
      return Failure(UsernameNotFound);
    }
    var loaded := LoadUserByUsername(rows, username.value.value);
    if loaded.Failure? {
      return Failure(loaded.error);
    }
    var access := GenerateAccessToken(config, loaded.value.username, loaded.value.roles, now);
    return Success(RefreshTokenResponse(access, config.accessExpirationMs));
  }

  /**
   * `logout`: the refresh-token cookie must be present, non-null and valid; its `jti` is then
   * recorded as revoked together with the token's expiry and the revocation instant.
   */
  method Logout(revoked: RevokedTokenTable, cookies: Option<seq<Cookie<Option<Token>>>>, now: int)
    returns (r: Outcome<Fault>)
    modifies revoked
    ensures CookieValue(cookies, REFRESH_COOKIE).Failure? ==>
      r == Fail(App(NOT_FOUND_IN_COOKIES)) && revoked.tokens == old(revoked.tokens)
    ensures CookieValue(cookies, REFRESH_COOKIE).Success? ==>
      var token := CookieValue(cookies, REFRESH_COOKIE).value;
      && (token.None? || !IsRefreshTokenValid(token.value, old(revoked.tokens).Keys, now) ==>
            r == Fail(App(REFRESH_TOKEN_INVALID)) && revoked.tokens == old(revoked.tokens))
      && (token.Some? && IsRefreshTokenValid(token.value, old(revoked.tokens).Keys, now) ==>
            var c := token.value.claims;
            r == Pass && revoked.tokens == old(revoked.tokens)[c.jti.value := RevokedToken(c.jti.value, c.exp, now)])
  {
    var refreshToken := GetCookieValue(cookies, REFRESH_COOKIE);
    if refreshToken.Failure? {
      return Fail(App(refreshToken.error));
    }
    if refreshToken.value.None? || !IsRefreshTokenValid(refreshToken.value.value, revoked.tokens.Keys, now) {
      return Fail(App(REFRESH_TOKEN_INVALID));
    }
    var token := refreshToken.value.value;
    RefreshValidIff(token, revoked.tokens.Keys, now);
    var jti := ExtractJti(token, now).value;
    var expiresAt := ExtractExpiration(token, now).value;
    if jti in revoked.tokens {
      // TOKEN_EXISTS: a valid refresh token is never already revoked when requests run one at a time.
      assert false;
    }
    revoked.Save(RevokedToken(jti, expiresAt, now));
    return Pass;
  }

  /** After logout records a token's `jti`, that token is never again a valid refresh token. */
  lemma LogoutRevokes(revoked: map<Uuid, RevokedToken>, token: Token, record: RevokedToken, later: int)
    requires token.Signed? && token.claims.jti.Some? && record.jti == token.claims.jti.value
    ensures !IsRefreshTokenValid(token, revoked[record.jti := record].Keys, later)
  {
    RevokedNeverValid(token, revoked[record.jti := record].Keys, later);
  }
}
