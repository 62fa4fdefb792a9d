/**
 * AuthService of the legacy generation: the verification code and its expiry live on the
 * user row itself rather than in the key-value store. Its token refresh and logout are the
 * ones in `Sessions`, and its login is identical to the current generation's.
 *
 * The legacy tree's own UserService is not part of this model; its `saveUser` is taken to
 * be a plain repository save, so `register` stores the trimmed password as given.
 */
module LegacyAuth {
  import opened Wrappers
  import opened Errors
  import opened Strings
  import opened Users
  import opened UserServices

  /** `plusMinutes(10)` and `plusMinutes(15)`, in milliseconds. */
  const REGISTER_CODE_TTL_MS: int := 10 * 60 * 1000
  const RESEND_CODE_TTL_MS: int := 15 * 60 * 1000

  datatype RegisterRequest = RegisterRequest(
    username: string, email: string, password: string, firstname: string, lastname: string)

  /** `generateVerificationCode`: `String.valueOf(nextInt(900000) + 100000)`, the draw a parameter. */
  function VerificationCode(draw: nat): string
  {
    DecimalString(draw % 900000 + 100000)
  }

  /** A verification code always has exactly six digits and lies in [100000, 999999]. */
  lemma VerificationCodeShape(draw: nat)
    ensures |VerificationCode(draw)| == 6
    ensures forall i :: 0 <= i < 6 ==> '0' <= VerificationCode(draw)[i] <= '9'
    ensures 100000 <= DigitsValue(VerificationCode(draw)) <= 999999
  {
    var n := draw % 900000 + 100000;
    assert Pow10(5) == 100000 && Pow10(6) == 1000000 by {
      assert Pow10(1) == 10;
      assert Pow10(2) == 100;
      assert Pow10(3) == 1000;
      assert Pow10(4) == 10000;
    }
    DecimalLengthAtMost(n, 6);
    DecimalLengthAtLeast(n, 6);
    DecimalRoundTrip(n);
  }

  /** The row `register` builds: trimmed fields, the trimmed password as is, a code valid for ten minutes. */
  function RegisteredUser(req: RegisterRequest, draw: nat, now: int): (u: User)
    ensures u.id.None? && u.roles == {ROLE_USER} && !u.enabled
    ensures u.verificationCode == Some(VerificationCode(draw))
    ensures u.verificationExpiresAt == Some(now + REGISTER_CODE_TTL_MS)
  {
    NewUser(Trim(req.username), Trim(req.email)).(
      password := Some(Trim(req.password)),
      firstname := Some(Trim(req.firstname)),
      lastname := Some(Trim(req.lastname)),
      roles := {ROLE_USER},
      verificationCode := Some(VerificationCode(draw)),
      verificationExpiresAt := Some(now + REGISTER_CODE_TTL_MS))
  }

  /** What `register` stores: the trimmed request, the password trimmed but not encoded. */
  lemma RegisteredUserFields(req: RegisterRequest, draw: nat, now: int)
    ensures RegisteredUser(req, draw, now).username == Trim(req.username)
    ensures RegisteredUser(req, draw, now).email == Trim(req.email)
    ensures RegisteredUser(req, draw, now).password == Some(Trim(req.password))
  {
  }

  /**
   * The check `verifyEmail` applies to a row: a missing expiry is dereferenced and fails; the
   * expiry is tested before the code, and a missing stored code fails too. A match yields the
   * row enabled, with code and expiry cleared.
   */
  function VerificationCheck(u: User, code: string, now: int): (r: Result<User, Fault>)
    ensures r.Success? <==>
      && u.verificationExpiresAt.Some? && now <= u.verificationExpiresAt.value
      && u.verificationCode == Some(code)
    ensures r.Success? ==> r.value == u.(enabled := true, verificationCode := None, verificationExpiresAt := None)
    ensures u.verificationExpiresAt.Some? && u.verificationExpiresAt.value < now ==>
      r == Failure(App(VERIFICATION_CODE_EXPIRED))
    ensures u.verificationExpiresAt.None? ==> r == Failure(NullPointer)
  {
    if u.verificationExpiresAt.None? then Failure(NullPointer)
    else if u.verificationExpiresAt.value < now then Failure(App(VERIFICATION_CODE_EXPIRED))
    else if u.verificationCode.None? then Failure(NullPointer)
    else if u.verificationCode.value == code then
      Success(u.(enabled := true, verificationCode := None, verificationExpiresAt := None))
    else Failure(App(VERIFICATION_CODE_INVALID))
  }

  /** A verified row has no expiry left, so verifying it again fails on the null expiry. */
  lemma VerifyTwiceFails(u: User, code: string, now: int, code2: string, later: int)
    requires VerificationCheck(u, code, now).Success?
    ensures VerificationCheck(VerificationCheck(u, code, now).value, code2, later) == Failure(NullPointer)
  {
  }

  /** A row just registered accepts its own code for ten minutes and nothing else. */
  lemma FreshCodeAccepted(req: RegisterRequest, draw: nat, now: int, code: string, t: int)
    requires t <= now + REGISTER_CODE_TTL_MS
    ensures VerificationCheck(RegisteredUser(req, draw, now), code, t).Success? <==> code == VerificationCode(draw)
  {
  }

  class LegacyAuthService {
    const repo: UserRepository
    const knownRoles: set<string>

    constructor (repo: UserRepository, knownRoles: set<string>)
      ensures this.repo == repo && this.knownRoles == knownRoles
    {
      this.repo := repo;
      this.knownRoles := knownRoles;
    }

    /**
     * `register`: one combined check that neither the address nor the username is taken, then
     * ROLE_USER, then the row is saved and the code mailed; a failure of either is reported as
     * INTERNAL_SERVER and the saved row stays.
     */
    method Register(req: RegisterRequest, draw: nat, now: int, mail: MailOutcome) returns (r: Outcome<Fault>)
      requires repo.Valid()
      modifies repo
      ensures repo.Valid()
      ensures ExistsByEmail(old(repo.rows), req.email) || ExistsByUsername(old(repo.rows), req.username) ==>
        r == Fail(App(ACCOUNT_REGISTERED)) && repo.rows == old(repo.rows)
      ensures !ExistsByEmail(old(repo.rows), req.email) && !ExistsByUsername(old(repo.rows), req.username) ==>
        && (ROLE_USER !in knownRoles ==> r == Fail(App(ROLE_NOT_FOUND)) && repo.rows == old(repo.rows))
        && (ROLE_USER in knownRoles && Clashes(old(repo.rows), RegisteredUser(req, draw, now)) ==>
              r == Fail(App(INTERNAL_SERVER)) && repo.rows == old(repo.rows))
        && (ROLE_USER in knownRoles && !Clashes(old(repo.rows), RegisteredUser(req, draw, now)) ==>
              repo.rows == AfterSave(old(repo.rows), RegisteredUser(req, draw, now))
              && r == if mail == Sent then Pass else Fail(App(INTERNAL_SERVER)))
    {
      if ExistsByEmail(repo.rows, req.email) || ExistsByUsername(repo.rows, req.username) {
        return Fail(App(ACCOUNT_REGISTERED));
      }
      var role := FindRole(knownRoles, ROLE_USER);
      if role.None? {
        return Fail(App(ROLE_NOT_FOUND));
      }
      var user := RegisteredUser(req, draw, now);
      var saved := repo.Save(user);
      if saved.Failure? || mail != Sent {
        return Fail(App(INTERNAL_SERVER));
      }
      return Pass;
    }

    /** `verifyEmail`: looks the row up by address and applies the verification check to it. */
    method VerifyEmail(email: string, code: string, now: int) returns (r: Outcome<Fault>)
      requires repo.Valid()
      modifies repo
      ensures repo.Valid()
      ensures !ExistsByEmail(old(repo.rows), email) ==>
        r == Fail(App(EMAIL_NOT_REGISTERED)) && repo.rows == old(repo.rows)
      ensures ExistsByEmail(old(repo.rows), email) ==>
        var k := IndexOfEmail(old(repo.rows), email);
        match VerificationCheck(old(repo.rows)[k], code, now)
        case Failure(e) => r == Fail(e) && repo.rows == old(repo.rows)
        case Success(u) => r == Pass && repo.rows == old(repo.rows)[k := u]
    {
      var found := FindByEmail(repo.rows, email);
      if found.None? {
        return Fail(App(EMAIL_NOT_REGISTERED));
      }
      ghost var k := IndexOfEmail(repo.rows, email);
      var user := found.value;
      if user.verificationExpiresAt.None? {
        return Fail(NullPointer);
      }
      if user.verificationExpiresAt.value < now {
        return Fail(App(VERIFICATION_CODE_EXPIRED));
      }
      if user.verificationCode.None? {
        return Fail(NullPointer);
      }
      if user.verificationCode.value == code {
        user := user.(enabled := true, verificationCode := None, verificationExpiresAt := None);
        RewriteOwnRow(repo.rows, k, user);
        var saved := repo.Save(user);
        return Pass;
      }
      return Fail(App(VERIFICATION_CODE_INVALID));
    }

    /**
     * `reSendVerificationCode`: an enabled row gets no new code; otherwise a new code valid for
     * fifteen minutes is mailed and only then saved, so a mail failure leaves the row as it was.
     * A mail that cannot be built is SEND_EMAIL_FAIL; a delivery failure escapes unconverted.
     */
    method ReSendVerificationCode(email: string, draw: nat, now: int, mail: MailOutcome) returns (r: Outcome<Fault>)
      requires repo.Valid()
      modifies repo
      ensures repo.Valid()
      ensures !ExistsByEmail(old(repo.rows), email) ==>
        r == Fail(App(EMAIL_NOT_REGISTERED)) && repo.rows == old(repo.rows)
      ensures ExistsByEmail(old(repo.rows), email) ==>
        var k := IndexOfEmail(old(repo.rows), email);
        var u := old(repo.rows)[k];
        && (u.enabled ==> r == Fail(App(USER_IS_ENABLED)) && repo.rows == old(repo.rows))
        && (!u.enabled && mail != Sent ==> r == MailResult(mail) && repo.rows == old(repo.rows))
        && (!u.enabled && mail == Sent ==>
              r == Pass
              && repo.rows == old(repo.rows)[k := u.(verificationCode := Some(VerificationCode(draw)),
                                                     verificationExpiresAt := Some(now + RESEND_CODE_TTL_MS))])
    {
      var found := FindByEmail(repo.rows, email);
      if found.None? {
        return Fail(App(EMAIL_NOT_REGISTERED));
      }
      ghost var k := IndexOfEmail(repo.rows, email);
      var user := found.value;
      if user.enabled {
        return Fail(App(USER_IS_ENABLED));
      }
      user := user.(verificationCode := Some(VerificationCode(draw)),
                    verificationExpiresAt := Some(now + RESEND_CODE_TTL_MS));
      if mail != Sent {
        return MailResult(mail);
      }
      RewriteOwnRow(repo.rows, k, user);
      var saved := repo.Save(user);
      return Pass;
    }
  }
}
