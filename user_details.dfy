/**
 * CustomUserDetailsService, and the part of Spring's DaoAuthenticationProvider that login
 * goes through: load the account by username or e-mail, refuse a disabled account, then
 * compare the password with the stored hash.
 */
module UserDetails {
  import opened Wrappers
  import opened Errors
  import opened Users
  import opened Passwords

  /**
   * `loadUserByUsername`: a username match wins; otherwise the value is tried as an e-mail
   * address; with neither it fails with UsernameNotFoundException.
   */
  function LoadUserByUsername(rows: seq<User>, usernameOrEmail: string): (r: Result<User, Fault>)
    ensures r.Success? <==> ExistsByUsername(rows, usernameOrEmail) || ExistsByEmail(rows, usernameOrEmail)
    ensures r.Failure? ==> r.error == UsernameNotFound
    ensures r.Success? ==> r.value in rows
    ensures ExistsByUsername(rows, usernameOrEmail) ==> r.value.username == usernameOrEmail
    ensures !ExistsByUsername(rows, usernameOrEmail) && r.Success? ==> r.value.email == usernameOrEmail
  {
    match FindByUsername(rows, usernameOrEmail)
    case Some(u) => Success(u)
    case None =>
      match FindByEmail(rows, usernameOrEmail)
      case Some(u) => Success(u)
      case None => Failure(UsernameNotFound)
  }

  /** In a well-formed table an account is found both by its username and by its e-mail address. */
  lemma LoadFindsAccount(rows: seq<User>, k: nat)
    requires WellFormed(rows) && k < |rows|
    ensures LoadUserByUsername(rows, rows[k].username) == Success(rows[k])
    ensures !ExistsByUsername(rows, rows[k].email) ==> LoadUserByUsername(rows, rows[k].email) == Success(rows[k])
  {
    FindOwnRow(rows, k);
  }

  /** When one account's username is another's e-mail address, the username owner is loaded. */
  lemma UsernameTakesPrecedence(rows: seq<User>, i: nat, j: nat)
    requires WellFormed(rows) && i < |rows| && j < |rows| && rows[i].username == rows[j].email
    ensures LoadUserByUsername(rows, rows[j].email) == Success(rows[i])
  {
    FindOwnRow(rows, i);
  }

  /** The outcome of `authenticationManager.authenticate` for a username/password pair. */
  datatype LoginOutcome = Authenticated(user: User) | BadCredentials | Disabled

  /** `passwordEncoder.matches`, where a null stored password never matches. */
  predicate PasswordMatches(raw: string, stored: Option<string>)
  {
    stored.Some? && Matches(raw, stored.value)
  }

  /**
   * DaoAuthenticationProvider: an unknown account is reported as bad credentials, the
   * disabled check runs before the password check.
   */
  function Authenticate(rows: seq<User>, usernameOrEmail: string, password: string): (o: LoginOutcome)
    ensures o.Authenticated? ==> o.user.enabled && PasswordMatches(password, o.user.password)
    ensures o.Authenticated? ==> LoadUserByUsername(rows, usernameOrEmail) == Success(o.user)
    ensures o.Disabled? <==> LoadUserByUsername(rows, usernameOrEmail).Success? && !LoadUserByUsername(rows, usernameOrEmail).value.enabled
  {
    match LoadUserByUsername(rows, usernameOrEmail)
    case Failure(_) => BadCredentials
    case Success(u) =>
      if !u.enabled then Disabled
      else if PasswordMatches(password, u.password) then Authenticated(u)
      else BadCredentials
  }

  /** The login outcome for an account named by its username: disabled first, then the password. */
  lemma AuthenticateByUsername(rows: seq<User>, k: nat, attempt: string)
    requires WellFormed(rows) && k < |rows|
    ensures Authenticate(rows, rows[k].username, attempt) ==
      if !rows[k].enabled then Disabled
      else if PasswordMatches(attempt, rows[k].password) then Authenticated(rows[k])
      else BadCredentials
  {
    LoadFindsAccount(rows, k);
  }

  /** Right after a row is saved, logging in by its username sees exactly that row. */
  lemma AuthenticateAfterSave(rows: seq<User>, u: User, attempt: string)
    requires WellFormed(rows) && !Clashes(rows, u)
    ensures Authenticate(AfterSave(rows, u), u.username, attempt) ==
      if !u.enabled then Disabled
      else if PasswordMatches(attempt, u.password) then Authenticated(Persisted(rows, u))
      else BadCredentials
  {
    SaveKeepsWellFormed(rows, u);
    var k := SlotOf(rows, u);
    AuthenticateByUsername(AfterSave(rows, u), k, attempt);
  }

  /** An enabled account whose stored hash is the encoding of `p` logs in with `p` and with nothing else. */
  lemma AuthenticateWithEncoded(rows: seq<User>, k: nat, p: string, attempt: string)
    requires WellFormed(rows) && k < |rows| && rows[k].enabled && rows[k].password == Some(Encode(p))
    ensures Authenticate(rows, rows[k].username, attempt) == (if attempt == p then Authenticated(rows[k]) else BadCredentials)
  {
    LoadFindsAccount(rows, k);
    MatchesEncodeIff(attempt, p);
  }

  /** Accounts without a password (created through Google sign-in) can never log in with a password. */
  lemma NoPasswordNeverAuthenticates(rows: seq<User>, name: string, attempt: string)
    requires LoadUserByUsername(rows, name).Success? && LoadUserByUsername(rows, name).value.password.None?
    ensures !Authenticate(rows, name, attempt).Authenticated?
  {
  }
}
