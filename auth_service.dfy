/**
 * AuthService of the current generation: registration with a one-time password kept in the
 * key-value store, e-mail verification, password reset through a short-lived reset grant,
 * and login. Token refresh and logout, shared with the legacy generation, are in `Sessions`.
 *
 * The clock, the random draw behind a code, the random UUIDs and how sending the mail ends
 * are parameters.
 */
module Auth {
  import opened Wrappers
  import opened Errors
  import opened Strings
  import opened Passwords
  import opened Users
  import opened UserDetails
  import opened UserServices
  import opened KeyValue
  import opened Otp
  import opened Jwt

  datatype RegisterRequest = RegisterRequest(
    username: string, email: string, password: string, firstname: string, lastname: string)

  datatype AuthResponse = AuthResponse(accessToken: Token, expiresInMS: int, refreshToken: Token, user: User)

  /**
   * The key a reset grant is stored under. The request's token is not validated, and Java's
   * string concatenation turns a null token into the text "null".
   */
  function ResetKey(resetToken: Option<string>): (k: string)
    ensures |k| >= 11 && k[..11] == "resetToken:"
  {
    "resetToken:" + (if resetToken.None? then "null" else resetToken.value)
  }

  /** The row `register` builds: trimmed fields, the encoded trimmed password, ROLE_USER, not enabled. */
  function RegisteredUser(req: RegisterRequest): (u: User)
    ensures u.id.None? && u.password.Some? && IsBcryptHash(u.password.value)
    ensures u.roles == {ROLE_USER} && !u.enabled
  {
    EncodeIsBcryptHash(Trim(req.password));
    NewUser(Trim(req.username), Trim(req.email)).(
      password := Some(Encode(Trim(req.password))),
      firstname := Some(Trim(req.firstname)),
      lastname := Some(Trim(req.lastname)),
      roles := {ROLE_USER})
  }

  /** What `register` stores: the trimmed request, with the password trimmed before it is encoded. */
  lemma RegisteredUserFields(req: RegisterRequest)
    ensures RegisteredUser(req).username == Trim(req.username) && RegisteredUser(req).email == Trim(req.email)
    ensures RegisteredUser(req).firstname == Some(Trim(req.firstname)) && RegisteredUser(req).lastname == Some(Trim(req.lastname))
    ensures RegisteredUser(req).password == Some(Encode(Trim(req.password)))
    ensures forall attempt :: PasswordMatches(attempt, RegisteredUser(req).password) <==> attempt == Trim(req.password)
  {
    forall attempt ensures PasswordMatches(attempt, RegisteredUser(req).password) <==> attempt == Trim(req.password) {
      MatchesEncodeIff(attempt, Trim(req.password));
    }
  }

  /** The pair of tokens and the response `login` hands out to an authenticated account. */
  function LoginResponse(config: JwtConfig, u: User, now: int, freshJti: Uuid): AuthResponse
  {
    AuthResponse(
      Signed(MintedClaims(u.username, u.roles, ACCESS, config.accessExpirationMs, now, "")),
      config.accessExpirationMs,
      Signed(MintedClaims(u.username, {}, REFRESH, config.refreshExpirationMs, now, freshJti)),
      u)
  }

  class AuthService {
    const users: UserService
    const redis: KeyValueStore
    const otp: OtpService
    const config: JwtConfig

    predicate Valid()
      reads this, users.repo
    {
      users.repo.Valid() && otp.redis == redis
    }

    constructor (users: UserService, redis: KeyValueStore, config: JwtConfig)
      requires users.repo.Valid()
      ensures Valid() && this.users == users && this.redis == redis && this.config == config
    {
      this.users := users;
      this.redis := redis;
      this.config := config;
      this.otp := new OtpService(redis);
    }

    /**
     * `register`: the raw e-mail address and username must both be unused (checked in that
     * order) and ROLE_USER must exist. The row is then saved and a code generated and mailed;
     * a failure of either is reported as INTERNAL_SERVER and undoes nothing.
     */
    method Register(req: RegisterRequest, draw: nat, now: int, mail: MailOutcome) returns (r: Outcome<Fault>)
      requires Valid()
      modifies users.repo, redis
      ensures Valid()
      ensures ExistsByEmail(old(users.repo.rows), req.email) ==>
        r == Fail(App(EMAIL_REGISTERED)) && users.repo.rows == old(users.repo.rows) && redis.entries == old(redis.entries)
      ensures !ExistsByEmail(old(users.repo.rows), req.email) && ExistsByUsername(old(users.repo.rows), req.username) ==>
        r == Fail(App(USERNAME_REGISTERED)) && users.repo.rows == old(users.repo.rows) && redis.entries == old(redis.entries)
      ensures !ExistsByEmail(old(users.repo.rows), req.email) && !ExistsByUsername(old(users.repo.rows), req.username) ==>
        && (ROLE_USER !in users.knownRoles ==> r == Fail(App(ROLE_NOT_FOUND)) && users.repo.rows == old(users.repo.rows) && redis.entries == old(redis.entries))
        && (ROLE_USER in users.knownRoles && Clashes(old(users.repo.rows), RegisteredUser(req)) ==>
              r == Fail(App(INTERNAL_SERVER)) && users.repo.rows == old(users.repo.rows) && redis.entries == old(redis.entries))
        && (ROLE_USER in users.knownRoles && !Clashes(old(users.repo.rows), RegisteredUser(req)) ==>
              && users.repo.rows == AfterSave(old(users.repo.rows), RegisteredUser(req))
              && redis.entries == Saved(old(redis.entries), RegisteredUser(req).email, OtpCode(draw), now)
              && r == if mail == Sent then Pass else Fail(App(INTERNAL_SERVER)))
    {
      if ExistsByEmail(users.repo.rows, req.email) {
        return Fail(App(EMAIL_REGISTERED));
      }
      if ExistsByUsername(users.repo.rows, req.username) {
        return Fail(App(USERNAME_REGISTERED));
      }
      var role := FindRole(users.knownRoles, ROLE_USER);
      if role.None? {
        return Fail(App(ROLE_NOT_FOUND));
      }
      var user := RegisteredUser(req);
      assert WithStoredPassword(user) == user;
      var saved := users.SaveUser(user);
      if saved.Failure? {
        return Fail(App(INTERNAL_SERVER));
      }
      var code := otp.GenerateCode(user.email, draw, now);
      if mail != Sent {
        return Fail(App(INTERNAL_SERVER));
      }
      return Pass;
    }

    /**
     * `verifyEmail`: the account is looked up by address and its code verified (and consumed);
     * on success the account is enabled and saved again through `saveUser`.
     */
    method VerifyEmail(email: string, code: string, now: int) returns (r: Outcome<Fault>)
      requires Valid()
      modifies users.repo, redis
      ensures Valid()
      ensures !ExistsByEmail(old(users.repo.rows), email) ==>
        r == Fail(App(EMAIL_NOT_REGISTERED)) && users.repo.rows == old(users.repo.rows) && redis.entries == old(redis.entries)
      ensures ExistsByEmail(old(users.repo.rows), email) ==>
        var k := IndexOfEmail(old(users.repo.rows), email);
        var u := old(users.repo.rows)[k];
        var verdict := OtpVerdict(Live(old(redis.entries), u.email, now), code);
        && (verdict.Failure? ==> r == Fail(App(verdict.error)) && users.repo.rows == old(users.repo.rows) && redis.entries == old(redis.entries))
        && (verdict.Success? ==> redis.entries == old(redis.entries) - {u.email})
        && (verdict.Success? && u.password.None? ==> r == Fail(NullPointer) && users.repo.rows == old(users.repo.rows))
        && (verdict.Success? && u.password.Some? ==>
              r == Pass && users.repo.rows == old(users.repo.rows)[k := WithStoredPassword(u.(enabled := true))])
    {
      var found := FindByEmail(users.repo.rows, email);
      if found.None? {
        return Fail(App(EMAIL_NOT_REGISTERED));
      }
      ghost var k := IndexOfEmail(users.repo.rows, email);
      var user := found.value;
      var verified := otp.VerifyOtp(user.email, code, now);
      if verified.Failure? {
        return Fail(App(verified.error));
      }
      // `verifyOtp` never answers false, so the account is always enabled here.
      user := user.(enabled := true);
      if user.password.Some? {
        RewriteOwnRow(users.repo.rows, k, WithStoredPassword(user));
      }
      var saved := users.SaveUser(user);
      if saved.Failure? {
        return Fail(saved.error);
      }
      return Pass;
    }

    /**
     * `verifyOtp`: a correct code (consumed) earns a reset grant: the address stored under
     * "resetToken:" + a fresh UUID for five minutes, and the UUID handed back.
     */
    method VerifyOtp(email: string, code: string, now: int, uuid: Uuid) returns (r: Result<Uuid, Fault>)
      requires Valid()
      modifies redis
      ensures Valid()
      ensures !ExistsByEmail(users.repo.rows, email) ==>
        r == Failure(App(EMAIL_NOT_REGISTERED)) && redis.entries == old(redis.entries)
      ensures ExistsByEmail(users.repo.rows, email) ==>
        var u := FindByEmail(users.repo.rows, email).value;
        var verdict := OtpVerdict(Live(old(redis.entries), u.email, now), code);
        && (verdict.Failure? ==> r == Failure(App(verdict.error)) && redis.entries == old(redis.entries))
        && (verdict.Success? ==>
              r == Success(uuid)
              && redis.entries == Saved(old(redis.entries) - {u.email}, ResetKey(Some(uuid)), u.email, now))
    {
      var found := FindByEmail(users.repo.rows, email);
      if found.None? {
        return Failure(App(EMAIL_NOT_REGISTERED));
      }
      var verified := otp.VerifyOtp(found.value.email, code, now);
      if verified.Failure? {
        return Failure(App(verified.error));
      }
      redis.SaveValue("resetToken:" + uuid, found.value.email, now);
      return Success(uuid);
    }

    /**
     * `reSendVerificationCode`: an enabled account gets no new code; otherwise a new code
     * replaces the old one and is mailed. A mail that cannot be built is SEND_EMAIL_FAIL; a
     * delivery failure escapes unconverted. Either way the new code stays stored.
     */
    method ReSendVerificationCode(email: string, draw: nat, now: int, mail: MailOutcome) returns (r: Outcome<Fault>)
      requires Valid()
      modifies redis
      ensures Valid()
      ensures !ExistsByEmail(users.repo.rows, email) ==>
        r == Fail(App(EMAIL_NOT_REGISTERED)) && redis.entries == old(redis.entries)
      ensures ExistsByEmail(users.repo.rows, email) ==>
        var u := FindByEmail(users.repo.rows, email).value;
        && (u.enabled ==> r == Fail(App(USER_IS_ENABLED)) && redis.entries == old(redis.entries))
        && (!u.enabled ==>
              redis.entries == Saved(old(redis.entries), u.email, OtpCode(draw), now)
              && r == MailResult(mail))
    {
      var found := FindByEmail(users.repo.rows, email);
      if found.None? {
        return Fail(App(EMAIL_NOT_REGISTERED));
      }
      if found.value.enabled {
        return Fail(App(USER_IS_ENABLED));
      }
      var code := otp.GenerateCode(found.value.email, draw, now);
      return MailResult(mail);
    }

    /**
     * `forgotPassword`: any registered account, enabled or not, gets a new code by mail, with
     * the same mail outcomes as `reSendVerificationCode`.
     */
    method ForgotPassword(email: string, draw: nat, now: int, mail: MailOutcome) returns (r: Outcome<Fault>)
      requires Valid()
      modifies redis
      ensures Valid()
      ensures !ExistsByEmail(users.repo.rows, email) ==>
        r == Fail(App(EMAIL_NOT_REGISTERED)) && redis.entries == old(redis.entries)
      ensures ExistsByEmail(users.repo.rows, email) ==>
        var u := FindByEmail(users.repo.rows, email).value;
        redis.entries == Saved(old(redis.entries), u.email, OtpCode(draw), now)
        && r == MailResult(mail)
    {
      var found := FindByEmail(users.repo.rows, email);
      if found.None? {
        return Fail(App(EMAIL_NOT_REGISTERED));
      }
      var code := otp.GenerateCode(found.value.email, draw, now);
      return MailResult(mail);
    }

    /**
     * `resetPassword`: the grant must still be live; the account it names gets the encoded new
     * password, and only then is the grant deleted.
     */
    method ResetPassword(resetToken: Option<string>, newPassword: string, now: int) returns (r: Outcome<Fault>)
      requires Valid()
      modifies users.repo, redis
      ensures Valid()
      ensures Live(old(redis.entries), ResetKey(resetToken), now).None? ==>
        r == Fail(App(INVALID_RESET_TOKEN)) && users.repo.rows == old(users.repo.rows) && redis.entries == old(redis.entries)
      ensures Live(old(redis.entries), ResetKey(resetToken), now).Some? ==>
        var storedEmail := Live(old(redis.entries), ResetKey(resetToken), now).value;
        && (!ExistsByEmail(old(users.repo.rows), storedEmail) ==>
              r == Fail(App(EMAIL_NOT_REGISTERED)) && users.repo.rows == old(users.repo.rows) && redis.entries == old(redis.entries))
        && (ExistsByEmail(old(users.repo.rows), storedEmail) ==>
              var k := IndexOfEmail(old(users.repo.rows), storedEmail);
              && r == Pass
              && users.repo.rows == old(users.repo.rows)[k := old(users.repo.rows)[k].(password := Some(Encode(newPassword)))]
              && redis.entries == old(redis.entries) - {ResetKey(resetToken)})
    {
      var key := "resetToken:" + (if resetToken.None? then "null" else resetToken.value);
      var storedEmail := redis.GetValue(key, now);
      if storedEmail.None? {
        return Fail(App(INVALID_RESET_TOKEN));
      }
      var found := FindByEmail(users.repo.rows, storedEmail.value);
      if found.None? {
        return Fail(App(EMAIL_NOT_REGISTERED));
      }
      ghost var k := IndexOfEmail(users.repo.rows, storedEmail.value);
      var user := found.value.(password := Some(Encode(newPassword)));
      EncodeIsBcryptHash(newPassword);
      RewriteOwnRow(users.repo.rows, k, user);
      var saved := users.SaveUser(user);
      redis.DeleteValue(key);
      return Pass;
    }

    /**
     * `login`: bad credentials (including an unknown account) are LOGIN_FAIL, a disabled account
     * USER_DISABLE; otherwise a fresh access and refresh token pair.
     */
    method Login(usernameOrEmail: string, password: string, now: int, freshJti: Uuid)
      returns (r: Result<AuthResponse, Fault>)
      requires Valid()
      ensures Authenticate(users.repo.rows, usernameOrEmail, password).BadCredentials? ==> r == Failure(App(LOGIN_FAIL))
      ensures Authenticate(users.repo.rows, usernameOrEmail, password).Disabled? ==> r == Failure(App(USER_DISABLE))
      ensures Authenticate(users.repo.rows, usernameOrEmail, password).Authenticated? ==>
        r == Success(LoginResponse(config, Authenticate(users.repo.rows, usernameOrEmail, password).user, now, freshJti))
    {
      var outcome := Authenticate(users.repo.rows, usernameOrEmail, password);
      match outcome {
        case BadCredentials => return Failure(App(LOGIN_FAIL));
        case Disabled => return Failure(App(USER_DISABLE));
        case Authenticated(u) =>
          var access := GenerateAccessToken(config, u.username, u.roles, now);
          var refresh := GenerateRefreshToken(config, u.username, now, freshJti);
          return Success(AuthResponse(access, config.accessExpirationMs, refresh, u));
      }
    }
  }

  // ---------------------------------------------------------------- properties

  /** A freshly registered account cannot log in until its address is verified. */
  lemma RegisteredLoginDisabled(rows: seq<User>, req: RegisterRequest, attempt: string)
    requires WellFormed(rows) && !Clashes(rows, RegisteredUser(req))
    ensures Authenticate(AfterSave(rows, RegisteredUser(req)), Trim(req.username), attempt) == Disabled
  {
    AuthenticateAfterSave(rows, RegisteredUser(req), attempt);
  }

  /** The tokens `login` hands out are valid: the access token for the account, the refresh token unless its `jti` is revoked. */
  lemma LoginTokensValid(config: JwtConfig, u: User, now: int, freshJti: Uuid, revoked: set<Uuid>, t: int)
    requires 0 <= config.accessExpirationMs && 0 <= config.refreshExpirationMs
    ensures var resp := LoginResponse(config, u, now, freshJti);
      && (now <= t <= now + config.accessExpirationMs ==> IsAccessTokenValid(resp.accessToken, u.username, t))
      && (now <= t <= now + config.refreshExpirationMs ==> (IsRefreshTokenValid(resp.refreshToken, revoked, t) <==> freshJti !in revoked))
      && !IsRefreshTokenValid(resp.accessToken, revoked, t)
      && resp.expiresInMS == config.accessExpirationMs
  {
    if now <= t <= now + config.accessExpirationMs {
      MintedRoundTrip(u.username, u.roles, ACCESS, config.accessExpirationMs, now, "", revoked, t);
    }
    if now <= t <= now + config.refreshExpirationMs {
      MintedRoundTrip(u.username, {}, REFRESH, config.refreshExpirationMs, now, freshJti, revoked, t);
    }
    AccessNeverRefresh(u.username, u.roles, config.accessExpirationMs, now, "", revoked, t);
  }
}
