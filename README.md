# Mochi-Chat authentication core, modelled in Dafny

This project models the credential and session lifecycle of the Mochi-Chat Spring Boot
backend, and proves properties of that model. It covers both code generations of the
repository:

- the current one (`service/`, `enums/`) keeps one-time codes and password-reset grants in
  Redis;
- the legacy one (`auth/`, `security/otp/`, `shared/`) keeps the verification code and its
  expiry on the user row.

The stores are modelled as state:

- the user table is a class holding a sequence of rows, with ids as positions and unique
  usernames and e-mail addresses;
- the revoked-refresh-token table is a class holding a map keyed by `jti`;
- Redis is a class holding a map from key to value and expiry instant, with a fixed five-minute
  lifetime.

The services are classes whose methods change those stores. Each method's `ensures` states
the whole new state and the answer or error code, in terms of specification functions. The
pure parts are functions and lemmas:

- token minting and the token validity rules;
- the username-or-email and password-confirmation validators;
- field ordering and placeholder substitution in validation messages;
- the cookie lookup;
- bearer-header parsing in the request filter;
- the username-or-email account lookup.

Clocks, random numbers, UUIDs and the outcome of sending a mail are parameters:

- `now` is in milliseconds;
- `draw` stands for `Random.nextInt`, taken modulo its bound;
- `uuid`/`freshJti` stand for `UUID.randomUUID()`;
- `mail` is how sending ends: sent, a `MessagingException` while the message is built, or a `MailException` from the transport.

A JWT is `Signed(Claims)` or `Bad`. `Bad` stands for any string that does not parse or
verify. A signed token decodes to exactly the claims it was minted with. BCrypt is replaced by
a deterministic, injective encoder `Encode`. Its output has the `$2a$` shape that the
code's "already encoded" regex recognises.

Exceptions are values of `Errors.Fault`:

- an `AppException` carries its `ErrorCode`;
- the runtime exceptions the code lets escape are modelled as their own cases: null
  dereference, failed cast, index out of bounds, `UsernameNotFoundException`, and the unique
  constraints rejecting a save.

Modules, one file each:

| file | module | models |
|---|---|---|
| wrappers.dfy | Wrappers | Option, Result, Outcome |
| errors.dfy | Errors | error codes, their HTTP statuses and messages, exceptions |
| strings.dfy | Strings | `String.trim`, `String.replace`, `String.valueOf(int)`, `split("@")[0]` |
| passwords.dfy | Passwords | the password encoder and the BCrypt-prefix test of `saveUser` |
| key_value_store.dfy | KeyValue | RedisService |
| otp.dfy | Otp | service/OtpService |
| legacy_otp.dfy | LegacyOtp | security/otp/OtpService |
| jwt.dfy | Jwt | JwtService |
| users.dfy | Users | the user table and role lookup the services call |
| user_details.dfy | UserDetails | CustomUserDetailsService and the authentication manager's outcome |
| user_service.dfy | UserServices | service/UserService |
| cookies.dfy | Cookies | both CookieUtils copies |
| auth_service.dfy | Auth | service/AuthService |
| legacy_auth_service.dfy | LegacyAuth | auth/AuthService |
| sessions.dfy | Sessions | `refreshToken` and `logout`, which both AuthService copies implement identically |
| jwt_filter.dfy | JwtFilter | JwtAuthenticationFilter |
| validators.dfy | Validators | UsernameOrEmailValidator, PasswordMatchesValidator |
| exception_handler.dfy | ExceptionHandling | GlobalExceptionHandler |
| scenarios.dfy | Scenarios | request sequences across the services |

## Model

| member | source | states |
|---|---|---|
| Errors.HttpStatus | src/main/java/com/mochi/backend/shared/enums/ErrorCode.java:10-33 | every declared code has its status: 500 exactly for INTERNAL_SERVER, 422 exactly for VALIDATION_FAILED, 403 exactly for USER_DISABLE, 401 exactly for UNAUTHORIZED and LOGIN_FAIL, 404 exactly for ROLE_NOT_FOUND and NOT_FOUND_IN_COOKIES, 400 for the rest; exactly the four codes missing from the declaration have none |
| Errors.Message | src/main/java/com/mochi/backend/shared/enums/ErrorCode.java:10-29 | a message exists exactly for the codes with a status |
| Errors.MailResult | src/main/java/com/mochi/backend/security/email/EmailService.java:19-47 | a mail that cannot be built is SEND_EMAIL_FAIL; a delivery failure escapes as an unconverted `MailException`; only a sent mail passes |
| Strings.TrimIdempotent | src/main/java/com/mochi/backend/service/AuthService.java:56-65 | trimming an already trimmed field changes nothing |
| Strings.TrimEmptyIff | src/main/java/com/mochi/backend/validation/validator/UsernameOrEmailValidator.java:25-26 | `trim().isEmpty()` holds exactly when every character is at most U+0020 |
| Strings.ReplaceAllPlaceholder | src/main/java/com/mochi/backend/exception/GlobalExceptionHandler.java:76-81 | `replace` turns the one placeholder in a brace-free text into the replacement and keeps the rest |
| Strings.DecimalRoundTrip | src/main/java/com/mochi/backend/service/OtpService.java:22 | the decimal text of a number reads back as that number |
| Strings.SplitFirstAt | src/main/java/com/mochi/backend/service/UserService.java:162 | `split("@")[0]` is the text before the first '@' and has no '@'; it throws exactly for a non-empty text made only of '@' |
| Passwords.StoredPassword | src/main/java/com/mochi/backend/service/UserService.java:66-70 | a password matching `^\$2[aby]\$.*` is kept as is, any other is encoded |
| Passwords.EncodeIsBcryptHash | src/main/java/com/mochi/backend/config/SecurityConfig.java:85-88 | every encoded password has the shape the "already encoded" test recognises |
| Passwords.MatchesEncodeIff | src/main/java/com/mochi/backend/service/UserService.java:123-124 | a raw password matches the encoding of p exactly when it equals p |
| Passwords.StoredPasswordIdempotent | src/main/java/com/mochi/backend/service/UserService.java:65-71 | storing a stored password again leaves it unchanged |
| Passwords.LookalikePassword | src/main/java/com/mochi/backend/service/UserService.java:66-67 | "$2a$Secret1!" passes the BCrypt-prefix test but matches no password |
| KeyValue.KeyValueStore.SaveValue | src/main/java/com/mochi/backend/service/RedisService.java:15-18 | the key now maps to the value, live for five minutes from now; nothing else changes |
| KeyValue.KeyValueStore.GetValue | src/main/java/com/mochi/backend/service/RedisService.java:20-23 | the stored value while it is live, null otherwise; the store is not changed |
| KeyValue.KeyValueStore.DeleteValue | src/main/java/com/mochi/backend/service/RedisService.java:25-27 | exactly the key is removed |
| KeyValue.SaveThenGet | src/main/java/com/mochi/backend/service/RedisService.java:13-23 | a saved value is read back for five minutes and is gone afterwards |
| KeyValue.SaveKeepsOthers | src/main/java/com/mochi/backend/service/RedisService.java:15-18 | saving one key does not change what any other key reads |
| KeyValue.DeleteThenGet | src/main/java/com/mochi/backend/service/RedisService.java:20-27 | after a delete the key reads null; other keys read as before |
| KeyValue.ExpiredStaysExpired | src/main/java/com/mochi/backend/service/RedisService.java:13-23 | an expired key stays expired as time goes on |
| Otp.OtpCodeShape | src/main/java/com/mochi/backend/service/OtpService.java:22 | a code is 1 to 6 digits without leading zero, the decimal of a number in [0, 999998] |
| Otp.OtpVerdict | src/main/java/com/mochi/backend/service/OtpService.java:27-37 | true exactly when the stored code equals the given one, never false; EXPIRED exactly when nothing is stored, INVALID otherwise |
| Otp.OtpService.GenerateCode | src/main/java/com/mochi/backend/service/OtpService.java:21-25 | returns the code of the draw and stores it under the raw address, replacing any earlier code |
| Otp.OtpService.VerifyOtp | src/main/java/com/mochi/backend/service/OtpService.java:27-37 | answers the verdict on the live code; a match deletes the code; any failure leaves the store unchanged |
| Otp.VerifyConsumes | src/main/java/com/mochi/backend/service/OtpService.java:32-35 | after a successful check the same code is EXPIRED |
| Otp.GeneratedCodeVerifies | src/main/java/com/mochi/backend/service/OtpService.java:21-35 | a generated code is accepted for five minutes, and only that code |
| LegacyOtp.CodeCheck | src/main/java/com/mochi/backend/security/otp/OtpService.java:27-34 | EXPIRED exactly when nothing is stored, otherwise whether the codes are equal |
| LegacyOtp.LegacyOtpService.GenerateCode | src/main/java/com/mochi/backend/security/otp/OtpService.java:18-25 | the code of the draw, stored under the address for five minutes |
| LegacyOtp.LegacyOtpService.VerifyCode | src/main/java/com/mochi/backend/security/otp/OtpService.java:27-34 | EXPIRED for an absent code, otherwise whether it equals the stored one; no modifies clause, so the store is unchanged |
| LegacyOtp.LegacyOtpService.ClearCode | src/main/java/com/mochi/backend/security/otp/OtpService.java:36-38 | exactly the address's code is removed |
| LegacyOtp.CheckIsRepeatable | src/main/java/com/mochi/backend/security/otp/OtpService.java:27-38 | a legacy check that succeeds agrees with the current verdict; once cleared, the code is EXPIRED |
| Jwt.GenerateToken | src/main/java/com/mochi/backend/security/jwt/JwtService.java:97-123 | type claim always; access tokens get the authorities and no jti; refresh tokens get the fresh jti and no roles; exp = iat + lifetime |
| Jwt.GenerateAccessToken | src/main/java/com/mochi/backend/security/jwt/JwtService.java:85-89 | an access token living for the access lifetime, without jti |
| Jwt.GenerateRefreshToken | src/main/java/com/mochi/backend/security/jwt/JwtService.java:91-95 | a refresh token living for the refresh lifetime, with the fresh jti |
| Jwt.ExtractAllClaims | src/main/java/com/mochi/backend/security/jwt/JwtService.java:47-63 | the claims of a parsed, unexpired token; TOKEN_EXPIRED for an expired one, UNAUTHORIZED for anything unparsable |
| Jwt.ExtractJti | src/main/java/com/mochi/backend/security/jwt/JwtService.java:73-75 | succeeds exactly for a decodable token that has a jti |
| Jwt.ExtractRoles | src/main/java/com/mochi/backend/security/jwt/JwtService.java:77-83 | the set of the non-null roles; a token without the claim throws |
| Jwt.IsTokenExpired | src/main/java/com/mochi/backend/security/jwt/JwtService.java:130-136 | never true, since decoding already throws for an expired token; false exactly for a decodable token |
| Jwt.IsTokenValid | src/main/java/com/mochi/backend/security/jwt/JwtService.java:125-128 | true exactly when the subject equals the username and the token is unexpired; a null subject throws |
| Jwt.RefreshValidIff | src/main/java/com/mochi/backend/security/jwt/JwtService.java:147-172 | valid iff decodable, typed REFRESH, unexpired, with a jti that is not revoked |
| Jwt.AccessValidIff | src/main/java/com/mochi/backend/security/jwt/JwtService.java:174-183 | valid iff decodable, typed ACCESS, unexpired, with the given subject |
| Jwt.AccessNeverRefresh | src/main/java/com/mochi/backend/security/jwt/JwtService.java:147-172 | a minted access token is never a valid refresh token, and reading its jti fails |
| Jwt.RevokedNeverValid | src/main/java/com/mochi/backend/security/jwt/JwtService.java:160-164 | a token whose jti is revoked is never a valid refresh token |
| Jwt.MintedRoundTrip | src/main/java/com/mochi/backend/security/jwt/JwtService.java:97-123 | within its lifetime a minted token reads back its subject, type and authorities, and is valid for its own type |
| Jwt.ExpiredRejected | src/main/java/com/mochi/backend/security/jwt/JwtService.java:55-57 | past exp every token fails decoding with TOKEN_EXPIRED and both validity rules reject it |
| Users.RolesByNames | src/main/java/com/mochi/backend/service/RoleService.java:18-20 | exactly the requested role names that exist |
| Users.FindRole | src/main/java/com/mochi/backend/service/RoleService.java:22-24 | the role when it exists, empty otherwise |
| UserDetails.LoadUserByUsername | src/main/java/com/mochi/backend/security/userDetails/CustomUserDetailsService.java:16-21 | found iff some row has that username or that address; a username match wins; otherwise UsernameNotFound |
| UserDetails.LoadFindsAccount | src/main/java/com/mochi/backend/security/userDetails/CustomUserDetailsService.java:17-19 | every account is loaded by its username and, when no username equals it, by its address |
| UserDetails.UsernameTakesPrecedence | src/main/java/com/mochi/backend/security/userDetails/CustomUserDetailsService.java:17-18 | when one account's username is another's address, the username owner is loaded |
| UserDetails.Authenticate | src/main/java/com/mochi/backend/service/AuthService.java:127-132 | authenticated only for a loaded, enabled account whose stored hash matches; disabled iff the loaded account is disabled |
| UserDetails.AuthenticateWithEncoded | src/main/java/com/mochi/backend/service/AuthService.java:127-132 | an enabled account storing Encode(p) is authenticated by p and by nothing else |
| UserDetails.NoPasswordNeverAuthenticates | src/main/java/com/mochi/backend/service/UserService.java:146-157 | an account without a password, as Google sign-in creates, never authenticates with a password |
| UserServices.AddedUser | src/main/java/com/mochi/backend/service/UserService.java:47-61 | for a request with every text field present: trimmed fields, the trimmed password, the existing requested roles, provider LOCAL, the requested enabled flag |
| UserServices.UserService.SaveUser | src/main/java/com/mochi/backend/service/UserService.java:65-72 | a null password throws before any write; otherwise the row is saved with the password encoded unless already BCrypt-shaped |
| UserServices.UserService.AddUser | src/main/java/com/mochi/backend/service/UserService.java:41-63 | a request missing any text field is NullPointer with nothing saved (the endpoint runs no validation); otherwise the built row goes through `saveUser`: DataIntegrity on a clash, else saved with its StoredPassword |
| UserServices.UserService.AddUserEncoded | src/main/java/com/mochi/backend/service/UserService.java:41-63 | the corrected `addUser`: the same NullPointer for a missing field; otherwise saves the built row with its trimmed password always encoded |
| UserServices.UserService.ChangePassword | src/main/java/com/mochi/backend/service/UserService.java:119-129 | non-local principal: ClassCast; unknown username: ACCOUNT_NOT_EXISTED; old password not matching: OLD_PASSWORD_INCORRECT, nothing saved; otherwise exactly that row's password becomes Encode(new) |
| UserServices.FirstFree | src/main/java/com/mochi/backend/service/UserService.java:164-169 | the first draw whose candidate username is free; all earlier candidates are taken |
| UserServices.UserService.GenerateUsernameFromEmail | src/main/java/com/mochi/backend/service/UserService.java:161-171 | the part before the first '@', '_' and the first eight characters of the first draw giving a free username; an all-'@' address throws |
| UserServices.UserService.FindOrCreateGoogleUser | src/main/java/com/mochi/backend/service/UserService.java:131-159 | a known address returns its row unchanged; a missing address throws; a new address yields IndexOutOfBounds for an all-'@' address, RetriesExhausted when no drawn username is free, and otherwise one appended row: id = its position, the first free generated username, the address, firstname/lastname/avatarUrl/providerId from given_name/family_name/picture/sub (null when absent), GOOGLE, enabled, no password, the existing roles among ROLE_USER, no verification fields |
| UserServices.GetMe | src/main/java/com/mochi/backend/service/UserService.java:97-112 | local principals are looked up by username, OAuth2 principals by their email attribute; any other principal, or a miss, is ACCOUNT_NOT_EXISTED |
| UserServices.ResaveKeepsPassword | src/main/java/com/mochi/backend/service/UserService.java:65-71 | saving an already saved row never encodes its hash again |
| UserServices.AddUserLookalikeLocksAccount | src/main/java/com/mochi/backend/service/UserService.java:56-67 | as written, an added account with password "$2a$Secret1!" stores it verbatim and then rejects every login |
| UserServices.AddUserEncodedLogsIn | src/main/java/com/mochi/backend/service/UserService.java:41-62 | with the correction, an enabled added account logs in with exactly its trimmed password |
| Cookies.IndexOfName | src/main/java/com/mochi/backend/shared/utils/CookieUtils.java:12-16 | the first position with that name; no earlier cookie has it |
| Cookies.GetCookieValue | src/main/java/com/mochi/backend/shared/utils/CookieUtils.java:10-21 | the first matching cookie's value; NOT_FOUND_IN_COOKIES exactly for a null array or no cookie of that name |
| Cookies.FirstMatchWins | src/main/java/com/mochi/backend/utils/CookieUtils.java:12-19 | the first cookie of a name decides, whatever follows it |
| Auth.ResetKey | src/main/java/com/mochi/backend/service/AuthService.java:205 | the grant key is "resetToken:" followed by the token, with "null" for a missing token |
| Auth.RegisteredUser | src/main/java/com/mochi/backend/service/AuthService.java:55-70 | new rows are disabled, have role ROLE_USER only, and have a BCrypt-shaped password |
| Auth.RegisteredUserFields | src/main/java/com/mochi/backend/service/AuthService.java:55-70 | the row holds the trimmed fields, and its password matches exactly the trimmed password |
| Auth.AuthService.Register | src/main/java/com/mochi/backend/service/AuthService.java:47-78 | EMAIL_REGISTERED before USERNAME_REGISTERED, then ROLE_NOT_FOUND; a failed save is INTERNAL_SERVER; otherwise the row is saved and a code stored, and any mail failure, build or delivery, is INTERNAL_SERVER with both kept |
| Auth.AuthService.VerifyEmail | src/main/java/com/mochi/backend/service/AuthService.java:80-92 | unknown address: EMAIL_NOT_REGISTERED; OTP errors propagate with nothing changed; on success the code is consumed and the row enabled |
| Auth.AuthService.VerifyOtp | src/main/java/com/mochi/backend/service/AuthService.java:94-109 | on a correct code it consumes the code and stores the address under "resetToken:"+uuid, returning uuid; on an OTP error no grant is written |
| Auth.AuthService.ReSendVerificationCode | src/main/java/com/mochi/backend/service/AuthService.java:111-122 | unknown: EMAIL_NOT_REGISTERED; enabled: USER_IS_ENABLED with no new code; otherwise a new code is stored and the mail outcome decides: SEND_EMAIL_FAIL if the message cannot be built, an escaping `MailException` if delivery fails |
| Auth.AuthService.ForgotPassword | src/main/java/com/mochi/backend/service/AuthService.java:193-201 | every registered address, enabled or not, gets a new code, and the mail outcome decides the answer as in `reSendVerificationCode`; unknown ones are EMAIL_NOT_REGISTERED |
| Auth.AuthService.ResetPassword | src/main/java/com/mochi/backend/service/AuthService.java:204-219 | no live grant: INVALID_RESET_TOKEN; missing account: EMAIL_NOT_REGISTERED with the grant kept; otherwise that row's password becomes Encode(new) and the grant is deleted |
| Auth.AuthService.Login | src/main/java/com/mochi/backend/service/AuthService.java:125-155 | bad credentials are LOGIN_FAIL, a disabled account USER_DISABLE; otherwise access and refresh tokens for the account, with expiresInMS = access lifetime |
| Auth.RegisteredLoginDisabled | src/main/java/com/mochi/backend/service/AuthService.java:47-78 | a freshly registered account is refused as disabled, whatever password is given |
| Auth.LoginTokensValid | src/main/java/com/mochi/backend/service/AuthService.java:140-148 | login's access token is valid for the account during its lifetime; its refresh token is valid unless its jti is revoked; the access token is never a refresh token |
| Sessions.RefreshToken | src/main/java/com/mochi/backend/service/AuthService.java:158-168 | an invalid refresh token is REFRESH_TOKEN_INVALID; a valid one returns an access token for the loaded account; no modifies clause, so the revoked table is unchanged; the legacy copy in auth/AuthService.java:184-194 is the same code |
| Sessions.Logout | src/main/java/com/mochi/backend/service/AuthService.java:170-191 | missing cookie: NOT_FOUND_IN_COOKIES; null or invalid token: REFRESH_TOKEN_INVALID; otherwise the jti is recorded with the token's expiry and the revocation instant; the legacy copy in auth/AuthService.java:196-217 is the same code |
| Sessions.LogoutRevokes | src/main/java/com/mochi/backend/service/AuthService.java:183-189 | once logout records a jti, that token is never again a valid refresh token |
| LegacyAuth.VerificationCodeShape | src/main/java/com/mochi/backend/auth/AuthService.java:145-149 | every legacy code has exactly six digits and a value in [100000, 999999] |
| LegacyAuth.RegisteredUser | src/main/java/com/mochi/backend/auth/AuthService.java:56-74 | new rows are disabled, have role ROLE_USER, the drawn code, and an expiry of now + 10 minutes |
| LegacyAuth.RegisteredUserFields | src/main/java/com/mochi/backend/auth/AuthService.java:56-66 | trimmed fields; the password is stored trimmed, not encoded |
| LegacyAuth.VerificationCheck | src/main/java/com/mochi/backend/auth/AuthService.java:88-100 | success iff an expiry is set and not passed and the stored code equals the given one; the expiry is checked first; a null expiry throws |
| LegacyAuth.VerifyTwiceFails | src/main/java/com/mochi/backend/auth/AuthService.java:88-96 | after a successful verification a second one throws on the cleared expiry |
| LegacyAuth.FreshCodeAccepted | src/main/java/com/mochi/backend/auth/AuthService.java:71-73 | for ten minutes a new row accepts exactly its own code |
| LegacyAuth.LegacyAuthService.Register | src/main/java/com/mochi/backend/auth/AuthService.java:51-82 | one combined ACCOUNT_REGISTERED check, then ROLE_NOT_FOUND; the row is saved; a failed save or any mail failure is INTERNAL_SERVER, and the saved row stays |
| LegacyAuth.LegacyAuthService.VerifyEmail | src/main/java/com/mochi/backend/auth/AuthService.java:84-104 | unknown: EMAIL_NOT_REGISTERED; otherwise the verification check decides, and only a success rewrites the row enabled with code and expiry cleared |
| LegacyAuth.LegacyAuthService.ReSendVerificationCode | src/main/java/com/mochi/backend/auth/AuthService.java:106-121 | unknown: EMAIL_NOT_REGISTERED; enabled: USER_IS_ENABLED; a mail failure leaves the row unsaved and is SEND_EMAIL_FAIL when the message cannot be built, an escaping `MailException` when delivery fails; otherwise a new code expiring at now + 15 minutes |
| JwtFilter.BearerToken | src/main/java/com/mochi/backend/security/jwt/JwtAuthenticationFilter.java:37-43 | a token exactly when the header is present and starts with "Bearer "; the token is the rest of the header, trimmed |
| JwtFilter.BearerRoundTrip | src/main/java/com/mochi/backend/security/jwt/JwtAuthenticationFilter.java:42-43 | the header "Bearer " + t yields trim(t) |
| JwtFilter.DoFilterInternal | src/main/java/com/mochi/backend/security/jwt/JwtAuthenticationFilter.java:28-71 | without a bearer header the context is untouched; every normal return continues the chain once; the context changes only from empty to the token's subject and roles, for an unexpired ACCESS token; it throws exactly for an undecodable token, or a token without roles on an empty context |
| JwtFilter.AuthenticatesIff | src/main/java/com/mochi/backend/security/jwt/JwtAuthenticationFilter.java:46-68 | on an empty context, authentication is set iff the token is decodable, ACCESS, unexpired and has a subject and roles; the subject comparison is with itself |
| JwtFilter.KeepsExistingAuthentication | src/main/java/com/mochi/backend/security/jwt/JwtAuthenticationFilter.java:46-47 | an existing authentication is never replaced |
| JwtFilter.MintedAccessTokenAuthenticates | src/main/java/com/mochi/backend/security/jwt/JwtAuthenticationFilter.java:48-67 | a minted access token authenticates its owner with exactly its authorities |
| JwtFilter.RefreshTokenAsBearerFails | src/main/java/com/mochi/backend/security/jwt/JwtAuthenticationFilter.java:46-48 | a refresh token used as bearer on an unauthenticated request throws, for lack of a roles claim |
| Validators.Validate | src/main/java/com/mochi/backend/validation/validator/UsernameOrEmailValidator.java:24-53 | NOT_BLANK iff null or blank; USERNAME_OR_EMAIL_REGEX iff of neither shape; USERNAME_SIZE iff username-shaped outside the bounds; EMAIL_SIZE iff address-shaped over the bound; valid otherwise; at most one violation |
| Validators.EmailHasOneAt | src/main/java/com/mochi/backend/validation/validator/UsernameOrEmailValidator.java:9 | an address-shaped value has exactly one '@', not at either end |
| Validators.ShapesDisjoint | src/main/java/com/mochi/backend/validation/validator/UsernameOrEmailValidator.java:9-10 | no value matches both expressions |
| Validators.ShapedValueNotBlank | src/main/java/com/mochi/backend/validation/validator/UsernameOrEmailValidator.java:25-26 | a value of either shape is never blank |
| Validators.DefaultBoundsAccept | src/main/java/com/mochi/backend/validation/constraints/UsernameOrEmail.java:16-20 | with the defaults, a value is valid iff it is a 3 to 30 character username or an address of at most 254 characters |
| Validators.PasswordsMatch | src/main/java/com/mochi/backend/validation/validator/PasswordMatchesValidator.java:11-18 | false when either is null; otherwise true iff the strings are equal |
| Validators.PasswordsMatchSymmetric | src/main/java/com/mochi/backend/validation/validator/PasswordMatchesValidator.java:12-16 | swapping the two passwords does not change the answer |
| ExceptionHandling.HandleAppException | src/main/java/com/mochi/backend/exception/GlobalExceptionHandler.java:18-27 | the code's status (4xx or 5xx) and message, success false, and the exception's error list |
| ExceptionHandling.LoginStatuses | src/main/java/com/mochi/backend/shared/enums/ErrorCode.java:13-16 | LOGIN_FAIL answers 401, USER_DISABLE 403, VALIDATION_FAILED 422 |
| ExceptionHandling.IndexOf | src/main/java/com/mochi/backend/exception/GlobalExceptionHandler.java:49 | `indexOf`: the first position of the field, -1 iff it is not listed |
| ExceptionHandling.SortByFieldOrderCorrect | src/main/java/com/mochi/backend/exception/GlobalExceptionHandler.java:47-51 | for any order list, `FIELD_ORDER` included, the errors come out ordered by field index, as a permutation of the input, and errors of equal index keep their order |
| ExceptionHandling.UnlistedFieldsFirst | src/main/java/com/mochi/backend/exception/GlobalExceptionHandler.java:31-49 | for any order list, errors on unlisted fields come before every listed one |
| ExceptionHandling.FirstMatch | src/main/java/com/mochi/backend/exception/GlobalExceptionHandler.java:64-67 | the first attribute map whose field is the field's name, if any |
| ExceptionHandling.MapAttributes | src/main/java/com/mochi/backend/exception/GlobalExceptionHandler.java:63-85 | without a map for the field the message is unchanged (the match case is MapAttributesFillsTemplate) |
| ExceptionHandling.FirstMatchOnly | src/main/java/com/mochi/backend/exception/GlobalExceptionHandler.java:64-67 | maps after the first match are never consulted |
| ExceptionHandling.FieldPlaceholderFilled | src/main/java/com/mochi/backend/exception/GlobalExceptionHandler.java:81 | the one-placeholder instance: with a match, a message holding a single "{field}" among brace-free text gets the field's name |
| ExceptionHandling.MinPlaceholderFilled | src/main/java/com/mochi/backend/exception/GlobalExceptionHandler.java:71-77 | the one-placeholder instance: with a match, a single "{min}" among brace-free text becomes min when present and stays when absent |
| ExceptionHandling.MaxPlaceholderFilled | src/main/java/com/mochi/backend/exception/GlobalExceptionHandler.java:72-80 | the one-placeholder instance: with a match, a single "{max}" among brace-free text becomes max when present |
| ExceptionHandling.ReplaceInTemplate | src/main/java/com/mochi/backend/exception/GlobalExceptionHandler.java:76-81 | one `replace` of a placeholder over a message of brace-free text and placeholders replaces every occurrence of exactly that placeholder, wherever it stands |
| ExceptionHandling.MapAttributesFillsTemplate | src/main/java/com/mochi/backend/exception/GlobalExceptionHandler.java:63-85 | with a map for the field, a message of any number of placeholders among brace-free text comes out with every "{min}" and "{max}" replaced by the bound when the constraint has it (kept otherwise) and every "{field}" replaced by the field's name |
| ExceptionHandling.EveryPlaceholderReplaced | src/main/java/com/mochi/backend/exception/GlobalExceptionHandler.java:71-81 | when the constraint has both bounds, no placeholder is left in the message |
| ExceptionHandling.ValidationMessages | src/main/java/com/mochi/backend/exception/GlobalExceptionHandler.java:47-51 | one message per field error: every error's substituted message appears and every message comes from an error, in the order of the field sort |
| ExceptionHandling.HandleValidationException | src/main/java/com/mochi/backend/exception/GlobalExceptionHandler.java:53-60 | the response is VALIDATION_FAILED's, carrying the ordered messages |
| Scenarios.LogoutThenRefresh | src/main/java/com/mochi/backend/service/AuthService.java:158-191 | after logout, both a refresh and a second logout with the same token are REFRESH_TOKEN_INVALID |
| Scenarios.RefreshTwice | src/main/java/com/mochi/backend/service/AuthService.java:158-168 | refreshing does not rotate: the same token gives the same answer again |
| Scenarios.ForgotThenVerifyTwice | src/main/java/com/mochi/backend/service/AuthService.java:94-109 | the mailed code earns a grant once; presenting it again is VERIFICATION_CODE_EXPIRED |
| Scenarios.ResetOnce | src/main/java/com/mochi/backend/service/AuthService.java:204-219 | a grant resets the password to the new one's hash once; replaying it is INVALID_RESET_TOKEN |
| Scenarios.RegisterThenLogin | src/main/java/com/mochi/backend/service/AuthService.java:125-155 | right after registration, login is USER_DISABLE |

## Left out

- JWT signing and parsing: HMAC keys, Base64 decoding and the compact format are not modelled. A token is its claims or `Bad`, and JJWT's truncation of instants to whole seconds is not modelled either.
- BCrypt: the salt, the cost factor and the one-way property are not modelled. `Encode` is a deterministic injective stand-in, so two encodings of one password are equal here, unlike with real BCrypt.
- Spring's DaoAuthenticationProvider is modelled only by its outcome: load, then the disabled check, then the password check, with an unknown account reported as bad credentials. Its other account checks (locked, expired credentials) are not modelled.
- CustomUserDetails is not part of this model. It is taken to expose the row's username, its role names as authorities, and its `enabled` flag.
- The legacy tree's own UserService (`user/UserService`) is not part of this model. Its `existsBy…`/`findByEmail` are taken as the table lookups, and its `saveUser` as a plain save, so legacy `register` stores the trimmed password unencoded.
- The error enum the current tree imports (`enums/ErrorCode`) is not part of this model. Statuses and messages come from `shared/enums/ErrorCode.java`. The four codes that appear only in the current tree have no status here, so `HandleAppException` returns none for them.
- Error detail lists of `AppException`: the handler passes a list through to the response, but the services' `App(code)` fault carries none, so the `List.of(e.getMessage())` attached to INTERNAL_SERVER and SEND_EMAIL_FAIL is not modelled.
- Mail delivery and the HTML body are I/O; each send is the `mail` parameter. A delivery failure is `MailDelivery`, the unhandled `MailException`, whose HTTP answer is Spring's default and is not modelled.
- The login response's user DTO mapping (`userMapper.toDto`) is not modelled: the row is returned.
- `getUsers` and the repository finders are plain delegation. The finders are modelled as the table lookups.
- The security context write in `login` and its clearing in `logout` are not modelled. The request filter takes the context as an explicit input and output.
- Concurrency is not modelled. The check-then-insert in `logout` is atomic here, so its TOKEN_EXISTS branch is unreachable and proved so.
- The time-zone conversion of the expiry in `logout` is the identity on millisecond instants.
- `UUID.fromString` on a malformed `jti` string is not modelled. A jti is its text, and only a missing jti fails.
- `generateToken`'s `extraClaims` map is always empty at its call sites. It is modelled as the fixed claim set the two callers produce.
- UserServices.UserService.GenerateUsernameFromEmail: the do-while loop draws UUIDs until a name is free. The model draws from a finite list of UUIDs and fails with `RetriesExhausted` when the list runs out, instead of looping on.
- Bean Validation annotations on request DTOs (`@NotBlank`, `@Pattern`, `@Size`) run in the library, on the endpoints that mark their body `@Valid`. They are not modelled as preconditions. `/users/add` (controller/UserController.java:26) has no `@Valid`, so its request reaches `addUser` unchecked; the model gives that request optional text fields.
- UserServices.UserService.AddUser: a null `roles` list is handed to `findByNameIn`, whose answer to null belongs to the repository and is not modelled; the roles are a list here.
- The legacy `login` is line for line the current one and is covered by `Auth.AuthService.Login`.
- Scenarios.ForgotThenVerifyTwice requires that the address differs from the grant's key "resetToken:"+uuid. Such an address cannot pass the e-mail validation, but the model does not derive that.
- ExceptionHandling.MapAttributesFillsTemplate: covers messages whose literal text holds no '{' and bounds and field names without '{'. A '{' elsewhere in the text, or a bound that itself contains a placeholder, is outside the lemma; bounds are numbers and field names Java identifiers.
- ExceptionHandling.FieldPlaceholderFilled: the single-placeholder case only; every occurrence in any template is MapAttributesFillsTemplate.
- ExceptionHandling.MinPlaceholderFilled: the single-placeholder case only; every occurrence in any template is MapAttributesFillsTemplate.
- ExceptionHandling.MaxPlaceholderFilled: the single-placeholder case only; every occurrence in any template is MapAttributesFillsTemplate.

## Findings

| source | as written | input that shows it | evidently intended | confidence | as-written member | corrected member |
|---|---|---|---|---|---|---|
| src/main/java/com/mochi/backend/service/UserService.java:56-57 | `addUser` passes the trimmed raw password to `saveUser`, which skips encoding for any password matching `^\$2[aby]\$.*` | an added user with password "$2a$Secret1!" (it would even pass the DTO's password pattern, which `/users/add` does not check at all, since the endpoint has no `@Valid`) | the password is always encoded, as `register` does, so the account logs in with it | not executed | UserServices.AddUserLookalikeLocksAccount | UserServices.AddUserEncodedLogsIn |
