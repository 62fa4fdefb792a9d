/** The application's error codes and the exceptions the core can raise. */
module Errors {
  import opened Wrappers

  /**
   * Every error code named at a call site in either code generation. The last four are used by
   * the newer service tree only; their enum declaration is not part of this model.
   */
  datatype ErrorCode =
    | INTERNAL_SERVER
    | UNAUTHORIZED
    | VALIDATION_FAILED
    | ROLE_NOT_FOUND
    | LOGIN_FAIL
    | USER_DISABLE
    | ACCOUNT_REGISTERED
    | SEND_EMAIL_FAIL
    | USER_IS_ENABLED
    | EMAIL_NOT_REGISTERED
    | VERIFICATION_CODE_EXPIRED
    | VERIFICATION_CODE_INVALID
    | TOKEN_EXPIRED
    | NOT_FOUND_IN_COOKIES
    | REFRESH_TOKEN_INVALID
    | ACCOUNT_NOT_EXISTED
    | TOKEN_EXISTS
    | EMAIL_REGISTERED
    | USERNAME_REGISTERED
    | INVALID_RESET_TOKEN
    | OLD_PASSWORD_INCORRECT

  /** What a call can throw: an AppException, or one of the runtime exceptions the core lets escape. */
  datatype Fault =
    | App(code: ErrorCode)   // AppException carrying an error code
    | NullPointer            // a null reference was dereferenced
    | ClassCast              // the principal is not of the expected class
    | IndexOutOfBounds       // an array index past the end
    | UsernameNotFound       // UsernameNotFoundException from the user-details lookup
    | DataIntegrity          // the user table's unique constraint rejected a save
    | RetriesExhausted       // the finite list of random draws ran out (see generateUsernameFromEmail)
    | MailDelivery           // an unchecked MailException from the mail transport, which no handler maps

  /**
   * How sending a verification mail ends: sent; a `MessagingException` while the message is
   * built (an unparsable address, say); or a `MailException` from `JavaMailSender.send`.
   */
  datatype MailOutcome = Sent | BuildFailed | DeliveryFailed

  /**
   * `sendVerificationEmail` as its callers see it: a build failure is caught and rethrown as
   * SEND_EMAIL_FAIL, a delivery failure is unchecked and escapes as it is.
   */
  function MailResult(m: MailOutcome): (r: Outcome<Fault>)
    ensures r == Pass <==> m == Sent
    ensures r == Fail(App(SEND_EMAIL_FAIL)) <==> m == BuildFailed
    ensures r == Fail(MailDelivery) <==> m == DeliveryFailed
  {
    match m
    case Sent => Pass
    case BuildFailed => Fail(App(SEND_EMAIL_FAIL))
    case DeliveryFailed => Fail(MailDelivery)
  }

  /** The HTTP status of each code declared in the error enum; None for the codes whose declaration is not modelled. */
  function HttpStatus(code: ErrorCode): (s: Option<nat>)
    ensures s.Some? <==> code !in {EMAIL_REGISTERED, USERNAME_REGISTERED, INVALID_RESET_TOKEN, OLD_PASSWORD_INCORRECT}
    ensures s.Some? ==> 400 <= s.value < 600
    ensures s == Some(500) <==> code == INTERNAL_SERVER
    ensures s == Some(422) <==> code == VALIDATION_FAILED
    ensures s == Some(403) <==> code == USER_DISABLE
    ensures s == Some(401) <==> code == UNAUTHORIZED || code == LOGIN_FAIL
    ensures s == Some(404) <==> code == ROLE_NOT_FOUND || code == NOT_FOUND_IN_COOKIES
    ensures s.Some? ==> s.value in {400, 401, 403, 404, 422, 500}
  {
    match code
    case INTERNAL_SERVER => Some(500)
    case UNAUTHORIZED => Some(401)
    case VALIDATION_FAILED => Some(422)
    case ROLE_NOT_FOUND => Some(404)
    case LOGIN_FAIL => Some(401)
    case USER_DISABLE => Some(403)
    case ACCOUNT_REGISTERED => Some(400)
    case SEND_EMAIL_FAIL => Some(400)
    case USER_IS_ENABLED => Some(400)
    case EMAIL_NOT_REGISTERED => Some(400)
    case VERIFICATION_CODE_EXPIRED => Some(400)
    case VERIFICATION_CODE_INVALID => Some(400)
    case TOKEN_EXPIRED => Some(400)
    case NOT_FOUND_IN_COOKIES => Some(404)
    case REFRESH_TOKEN_INVALID => Some(400)
    case ACCOUNT_NOT_EXISTED => Some(400)
    case TOKEN_EXISTS => Some(400)
    case _ => None
  }

  /** The human message of each code declared in the error enum. */
  function Message(code: ErrorCode): (m: Option<string>)
    ensures m.Some? <==> HttpStatus(code).Some?
  {
    match code
    case INTERNAL_SERVER => Some("Internal server error!")
    case UNAUTHORIZED => Some("Unauthorized")
    case VALIDATION_FAILED => Some("Validation failed!")
    case ROLE_NOT_FOUND => Some("Role does not exists!")
    case LOGIN_FAIL => Some("The account or password is incorrect!")
    case USER_DISABLE => Some("The account not verified!")
    case ACCOUNT_REGISTERED => Some("The account has been registered!")
    case SEND_EMAIL_FAIL => Some("Failed to send verification email!")
    case USER_IS_ENABLED => Some("The account has been verified!")
    case EMAIL_NOT_REGISTERED => Some("The email not registered!")
    case VERIFICATION_CODE_EXPIRED => Some("Verification code expired!")
    case VERIFICATION_CODE_INVALID => Some("Verification code does not match!")
    case TOKEN_EXPIRED => Some("Token expired!")
    case NOT_FOUND_IN_COOKIES => Some("Not found in cookies")
    case REFRESH_TOKEN_INVALID => Some("Refresh token invalid")
    case ACCOUNT_NOT_EXISTED => Some("Account not existed!")
    case TOKEN_EXISTS => Some("Token exists!")
    case _ => None
  }
}
