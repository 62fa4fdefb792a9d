/**
 * Request sequences against the stateful services, each with the outcome of every step: the
 * session rules (logout revokes once and for all), the one-shot reset grant, and the
 * registration gate on login.
 */
module Scenarios {
  import opened Wrappers
  import opened Errors
  import opened Strings
  import opened Passwords
  import opened Users
  import opened UserDetails
  import opened KeyValue
  import opened Otp
  import opened Jwt
  import opened Cookies
  import opened Sessions
  import opened Auth

  /**
   * A valid refresh token is logged out; refreshing with it afterwards, or logging it out a
   * second time, is REFRESH_TOKEN_INVALID.
   */
  method LogoutThenRefresh(config: JwtConfig, rows: seq<User>, revoked: RevokedTokenTable, token: Token,
                           now: int, later: int)
    returns (first: Outcome<Fault>, refreshed: Result<RefreshTokenResponse, Fault>, second: Outcome<Fault>)
    requires IsRefreshTokenValid(token, revoked.tokens.Keys, now)
    modifies revoked
    ensures first == Pass
    ensures refreshed == Failure(App(REFRESH_TOKEN_INVALID))
    ensures second == Fail(App(REFRESH_TOKEN_INVALID))
  {
    var cookies := Some([Cookie(REFRESH_COOKIE, Some(token))]);
    FirstMatchWins([], Some(token), [], REFRESH_COOKIE);
    assert [] + [Cookie(REFRESH_COOKIE, Some(token))] + [] == cookies.value;
    RefreshValidIff(token, revoked.tokens.Keys, now);
    first := Logout(revoked, cookies, now);
    RevokedNeverValid(token, revoked.tokens.Keys, later);
    refreshed := RefreshToken(config, rows, revoked, token, later);
    second := Logout(revoked, cookies, later);
  }

  /**
   * Refreshing does not rotate the refresh token: two refreshes with the same token give the
   * same answer.
   */
  method RefreshTwice(config: JwtConfig, rows: seq<User>, revoked: RevokedTokenTable, token: Token, now: int)
    returns (first: Result<RefreshTokenResponse, Fault>, second: Result<RefreshTokenResponse, Fault>)
    ensures first == second
    ensures (IsRefreshTokenValid(token, revoked.tokens.Keys, now) && token.claims.sub.Some?
             && ExistsByUsername(rows, token.claims.sub.value)) ==> first.Success?
  {
    first := RefreshToken(config, rows, revoked, token, now);
    second := RefreshToken(config, rows, revoked, token, now);
  }

  /**
   * Forgot-password flow of a registered address: the mailed code earns a reset grant once;
   * presenting it again finds no code. (An address never has the form of a grant's key.)
   */
  method ForgotThenVerifyTwice(auth: AuthService, email: string, draw: nat, now: int, uuid: Uuid)
    returns (verified: Result<Uuid, Fault>, again: Result<Uuid, Fault>)
    requires auth.Valid() && ExistsByEmail(auth.users.repo.rows, email)
    requires email != ResetKey(Some(uuid))
    modifies auth.redis
    ensures verified == Success(uuid)
    ensures again == Failure(App(VERIFICATION_CODE_EXPIRED))
    ensures Live(auth.redis.entries, ResetKey(Some(uuid)), now) == Some(email)
  {
    var sent := auth.ForgotPassword(email, draw, now, Sent);
    assert FindByEmail(auth.users.repo.rows, email).value.email == email;
    SaveThenGet(old(auth.redis.entries), email, OtpCode(draw), now, now);
    verified := auth.VerifyOtp(email, OtpCode(draw), now, uuid);
    ghost var afterVerify := auth.redis.entries;
    ghost var consumed := Saved(old(auth.redis.entries), email, OtpCode(draw), now) - {email};
    SaveThenGet(consumed, ResetKey(Some(uuid)), email, now, now);
    SaveKeepsOthers(consumed, ResetKey(Some(uuid)), email, now, email, now);
    DeleteThenGet(Saved(old(auth.redis.entries), email, OtpCode(draw), now), email, email, now);
    again := auth.VerifyOtp(email, OtpCode(draw), now, uuid);
    assert auth.redis.entries == afterVerify;
  }

  /**
   * A live reset grant for a registered address resets that account's password to the new
   * one's hash, once; replaying the grant is INVALID_RESET_TOKEN.
   */
  method ResetOnce(auth: AuthService, resetToken: string, email: string, newPassword: string, now: int)
    returns (reset: Outcome<Fault>, replay: Outcome<Fault>)
    requires auth.Valid() && ExistsByEmail(auth.users.repo.rows, email)
    requires Live(auth.redis.entries, ResetKey(Some(resetToken)), now) == Some(email)
    modifies auth.users.repo, auth.redis
    ensures reset == Pass
    ensures replay == Fail(App(INVALID_RESET_TOKEN))
    ensures auth.Valid() && ExistsByEmail(auth.users.repo.rows, email)
    ensures auth.users.repo.rows[IndexOfEmail(auth.users.repo.rows, email)].password == Some(Encode(newPassword))
  {
    ghost var k := IndexOfEmail(auth.users.repo.rows, email);
    reset := auth.ResetPassword(Some(resetToken), newPassword, now);
    assert auth.users.repo.rows[k].email == email;
    FindOwnRow(auth.users.repo.rows, k);
    replay := auth.ResetPassword(Some(resetToken), newPassword, now);
    FindOwnRow(auth.users.repo.rows, k);
  }

  /** An account just registered is refused at login as not yet verified, whatever password is given. */
  method RegisterThenLogin(auth: AuthService, req: RegisterRequest, draw: nat, now: int, attempt: string, jti: Uuid)
    returns (registered: Outcome<Fault>, login: Result<AuthResponse, Fault>)
    requires auth.Valid() && ROLE_USER in auth.users.knownRoles
    requires !ExistsByEmail(auth.users.repo.rows, req.email) && !ExistsByUsername(auth.users.repo.rows, req.username)
    requires !Clashes(auth.users.repo.rows, RegisteredUser(req))
    modifies auth.users.repo, auth.redis
    ensures registered == Pass
    ensures login == Failure(App(USER_DISABLE))
  {
    RegisteredLoginDisabled(auth.users.repo.rows, req, attempt);
    registered := auth.Register(req, draw, now, Sent);
    RegisteredUserFields(req);
    login := auth.Login(Trim(req.username), attempt, now, jti);
  }
}
