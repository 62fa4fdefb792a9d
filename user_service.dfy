/**
 * UserService of the current generation: saving with conditional password encoding, the
 * administrator's `addUser`, changing a password, `getMe`, and the accounts created on a
 * first Google sign-in.
 */
module UserServices {
  import opened Wrappers
  import opened Errors
  import opened Strings
  import opened Passwords
  import opened Users
  import opened UserDetails

  /** Who the security context says is calling. */
  datatype Principal =
    | LocalPrincipal(user: User)                     // CustomUserDetails
    | OAuth2Principal(attributes: map<string, string>) // DefaultOAuth2User
    | OtherPrincipal

  /**
   * The administrator's request body (`AddUserRequest`). `/users/add` takes it without `@Valid`,
   * so none of its constraints runs and any text field may be null (None).
   */
  datatype AddUserRequest = AddUserRequest(
    username: Option<string>, email: Option<string>, password: Option<string>,
    firstname: Option<string>, lastname: Option<string>,
    roles: seq<string>, enabled: bool)

  /** Every text field `addUser` trims is present. */
  predicate Complete(req: AddUserRequest)
  {
    req.username.Some? && req.email.Some? && req.password.Some? && req.firstname.Some? && req.lastname.Some?
  }

  /** `user` as `saveUser` writes it: the password encoded unless it already looks encoded. */
  function WithStoredPassword(user: User): User
    requires user.password.Some?
  {
    user.(password := Some(StoredPassword(user.password.value)))
  }

  /**
   * The row `addUser` builds from a complete request: trimmed fields, the requested roles that
   * exist, provider LOCAL. An incomplete request never gets this far (see `AddUser`).
   */
  function AddedUser(knownRoles: set<string>, req: AddUserRequest): (u: User)
    requires Complete(req)
    ensures u.username == Trim(req.username.value) && u.email == Trim(req.email.value)
    ensures u.password == Some(Trim(req.password.value))
    ensures u.firstname == Some(Trim(req.firstname.value)) && u.lastname == Some(Trim(req.lastname.value))
    ensures u.id.None? && u.provider == Some(LOCAL) && u.enabled == req.enabled
    ensures forall n :: n in u.roles <==> n in knownRoles && n in req.roles
  {
    NewUser(Trim(req.username.value), Trim(req.email.value)).(
      password := Some(Trim(req.password.value)),
      firstname := Some(Trim(req.firstname.value)),
      lastname := Some(Trim(req.lastname.value)),
      roles := RolesByNames(knownRoles, req.roles),
      enabled := req.enabled,
      provider := Some(LOCAL))
  }

  /** The row `addUser` ends up saving, once `saveUser` has dealt with the password. */
  function StoredAddedUser(knownRoles: set<string>, req: AddUserRequest): (u: User)
    requires Complete(req)
    ensures u.username == Trim(req.username.value) && u.enabled == req.enabled
    ensures u.password == Some(StoredPassword(Trim(req.password.value)))
  {
    WithStoredPassword(AddedUser(knownRoles, req))
  }

  /** The row the corrected `addUser` saves: the built row with its trimmed password encoded. */
  function EncodedAddedUser(knownRoles: set<string>, req: AddUserRequest): (u: User)
    requires Complete(req)
    ensures u.username == Trim(req.username.value) && u.enabled == req.enabled
    ensures u.password == Some(Encode(Trim(req.password.value)))
    ensures IsBcryptHash(u.password.value)
  {
    EncodeIsBcryptHash(Trim(req.password.value));
    AddedUser(knownRoles, req).(password := Some(Encode(Trim(req.password.value))))
  }

  /** `attributes.get(key)` on an OAuth2 principal's attributes: null when the key is absent. */
  function Attribute(attributes: map<string, string>, key: string): (r: Option<string>)
    ensures r.Some? <==> key in attributes
    ensures r.Some? ==> r.value == attributes[key]
  {
    if key in attributes then Some(attributes[key]) else None
  }

  /** The text `generateUsernameFromEmail` tries for one random UUID: base, '_', the UUID's first 8 characters. */
  function Candidate(base: string, uuid: string): string
    requires |uuid| >= 8
  {
    base + "_" + uuid[..8]
  }

  /** Position of the first UUID whose candidate username is free, or |uuids| when all are taken. */
  function FirstFree(rows: seq<User>, base: string, uuids: seq<string>): (k: nat)
    requires forall i :: 0 <= i < |uuids| ==> |uuids[i]| >= 8
    ensures k <= |uuids|
    ensures k < |uuids| ==> !ExistsByUsername(rows, Candidate(base, uuids[k]))
    ensures forall j :: 0 <= j < k ==> ExistsByUsername(rows, Candidate(base, uuids[j]))
  {
    if uuids == [] then 0
    else if !ExistsByUsername(rows, Candidate(base, uuids[0])) then 0
    else 1 + FirstFree(rows, base, uuids[1..])
  }

  /**
   * `getMe`: a local principal is looked up by username, an OAuth2 principal by its `email`
   * attribute; any other principal, or a miss, is ACCOUNT_NOT_EXISTED.
   */
  function GetMe(rows: seq<User>, principal: Principal): (r: Result<User, ErrorCode>)
    ensures r.Failure? ==> r.error == ACCOUNT_NOT_EXISTED
    ensures principal.OtherPrincipal? ==> r.Failure?
    ensures principal.LocalPrincipal? ==>
      (r.Success? <==> ExistsByUsername(rows, principal.user.username))
      && (r.Success? ==> r.value in rows && r.value.username == principal.user.username)
    ensures principal.OAuth2Principal? ==>
      (r.Success? <==> "email" in principal.attributes && ExistsByEmail(rows, principal.attributes["email"]))
      && (r.Success? ==> r.value in rows && r.value.email == principal.attributes["email"])
  {
    match principal
    case LocalPrincipal(u) =>
      (match FindByUsername(rows, u.username)
       case Some(found) => Success(found)
       case None => Failure(ACCOUNT_NOT_EXISTED))
    case OAuth2Principal(attributes) =>
      if "email" !in attributes then Failure(ACCOUNT_NOT_EXISTED)
      else
        (match FindByEmail(rows, attributes["email"])
         case Some(found) => Success(found)
         case None => Failure(ACCOUNT_NOT_EXISTED))
    case OtherPrincipal => Failure(ACCOUNT_NOT_EXISTED)
  }

  /** Rewriting a row with its own id, username and e-mail address never clashes, and updates that slot. */
  lemma RewriteOwnRow(rows: seq<User>, k: nat, u: User)
    requires WellFormed(rows) && k < |rows|
    requires u.id == Some(k) && u.username == rows[k].username && u.email == rows[k].email
    ensures !Clashes(rows, u)
    ensures Persisted(rows, u) == u && AfterSave(rows, u) == rows[k := u]
  {
  }

  class UserService {
    const repo: UserRepository
    const knownRoles: set<string>

    constructor (repo: UserRepository, knownRoles: set<string>)
      ensures this.repo == repo && this.knownRoles == knownRoles
    {
      this.repo := repo;
      this.knownRoles := knownRoles;
    }

    /**
     * `saveUser`: encodes the password unless it already has BCrypt's prefix, then saves.
     * A null password is dereferenced and fails before anything is written.
     */
    method SaveUser(user: User) returns (r: Result<User, Fault>)
      requires repo.Valid()
      modifies repo
      ensures repo.Valid()
      ensures user.password.None? ==> r == Failure(NullPointer) && repo.rows == old(repo.rows)
      ensures user.password.Some? ==>
        var stored := WithStoredPassword(user);
        && (Clashes(old(repo.rows), stored) ==> r == Failure(DataIntegrity) && repo.rows == old(repo.rows))
        && (!Clashes(old(repo.rows), stored) ==>
              r == Success(Persisted(old(repo.rows), stored)) && repo.rows == AfterSave(old(repo.rows), stored))
    {
      if user.password.None? {
        return Failure(NullPointer);
      }
      var password := user.password.value;
      var toSave := user;
      if !IsBcryptHash(password) {
        toSave := user.(password := Some(Encode(password)));
      }
      r := repo.Save(toSave);
    }

    /**
     * `addUser`: builds the row from the trimmed request and hands it to `saveUser`, so the
     * password is encoded there, unless the trimmed password itself looks encoded. A missing
     * text field is dereferenced by its `trim()` and fails before anything is written.
     */
    method AddUser(req: AddUserRequest) returns (r: Result<User, Fault>)
      requires repo.Valid()
      modifies repo
      ensures repo.Valid()
      ensures !Complete(req) ==> r == Failure(NullPointer) && repo.rows == old(repo.rows)
      ensures Complete(req) ==> var stored := StoredAddedUser(knownRoles, req);
        && (Clashes(old(repo.rows), stored) ==> r == Failure(DataIntegrity) && repo.rows == old(repo.rows))
        && (!Clashes(old(repo.rows), stored) ==>
              r == Success(Persisted(old(repo.rows), stored)) && repo.rows == AfterSave(old(repo.rows), stored))
    {
      if !Complete(req) {
        return Failure(NullPointer);
      }
      var user := AddedUser(knownRoles, req);
      r := SaveUser(user);
    }

    /**
     * `addUser` as it evidently should be: the trimmed password is always encoded before the
     * row is saved, as `register` does, so it can never be stored as plain text. A missing text
     * field still fails as in `AddUser`.
     */
    method AddUserEncoded(req: AddUserRequest) returns (r: Result<User, Fault>)
      requires repo.Valid()
      modifies repo
      ensures repo.Valid()
      ensures !Complete(req) ==> r == Failure(NullPointer) && repo.rows == old(repo.rows)
      ensures Complete(req) ==> var stored := EncodedAddedUser(knownRoles, req);
        && (Clashes(old(repo.rows), stored) ==> r == Failure(DataIntegrity) && repo.rows == old(repo.rows))
        && (!Clashes(old(repo.rows), stored) ==>
              r == Success(Persisted(old(repo.rows), stored)) && repo.rows == AfterSave(old(repo.rows), stored))
    {
      if !Complete(req) {
        return Failure(NullPointer);
      }
      var user := AddedUser(knownRoles, req);
      user := user.(password := Some(Encode(Trim(req.password.value))));
      r := SaveUser(user);
    }

    /**
     * `changePassword`: only a local principal can be cast to CustomUserDetails; its account is
     * looked up again by username; the old password must match the stored hash; the new one
     * is encoded and the row saved directly through the repository.
     */
    method ChangePassword(principal: Principal, oldPassword: string, newPassword: string)
      returns (r: Outcome<Fault>)
      requires repo.Valid()
      modifies repo
      ensures repo.Valid()
      ensures !principal.LocalPrincipal? ==> r == Fail(ClassCast) && repo.rows == old(repo.rows)
      ensures principal.LocalPrincipal? && !ExistsByUsername(old(repo.rows), principal.user.username) ==>
        r == Fail(App(ACCOUNT_NOT_EXISTED)) && repo.rows == old(repo.rows)
      ensures principal.LocalPrincipal? && ExistsByUsername(old(repo.rows), principal.user.username) ==>
        var k := IndexOfUsername(old(repo.rows), principal.user.username);
        var current := old(repo.rows)[k];
        && (!PasswordMatches(oldPassword, current.password) ==>
              r == Fail(App(OLD_PASSWORD_INCORRECT)) && repo.rows == old(repo.rows))
        && (PasswordMatches(oldPassword, current.password) ==>
              r == Pass && repo.rows == old(repo.rows)[k := current.(password := Some(Encode(newPassword)))])
    {
      if !principal.LocalPrincipal? {
        return Fail(ClassCast);
      }
      var found := FindByUsername(repo.rows, principal.user.username);
      if found.None? {
        return Fail(App(ACCOUNT_NOT_EXISTED));
      }
      var user := found.value;
      if PasswordMatches(oldPassword, user.password) {
        ghost var k := IndexOfUsername(repo.rows, principal.user.username);
        user := user.(password := Some(Encode(newPassword)));
        RewriteOwnRow(repo.rows, k, user);
        var saved := repo.Save(user);
        return Pass;
      } else {
        return Fail(App(OLD_PASSWORD_INCORRECT));
      }
    }

    /**
     * `generateUsernameFromEmail`: the text before the first '@', '_' and eight characters of
     * a random UUID, drawn again while the name is taken. The UUIDs the loop would draw are a
     * parameter; running out of them stands for the loop never ending.
     */
    method GenerateUsernameFromEmail(email: string, uuids: seq<string>) returns (r: Result<string, Fault>)
      requires forall i :: 0 <= i < |uuids| ==> |uuids[i]| >= 8
      ensures SplitFirstAt(email).Failure? ==> r == Failure(IndexOutOfBounds)
      ensures SplitFirstAt(email).Success? ==>
        var base := SplitFirstAt(email).value;
        var k := FirstFree(repo.rows, base, uuids);
        r == if k < |uuids| then Success(Candidate(base, uuids[k])) else Failure(RetriesExhausted)
      ensures r.Success? ==> !ExistsByUsername(repo.rows, r.value) && '@' !in r.value[..|r.value| - 9]
    {
      var split := SplitFirstAt(email);
      if split.Failure? {
        return Failure(split.error);
      }
      var base := split.value;
      var i := 0;
      while i < |uuids|
        invariant 0 <= i <= |uuids|
        invariant forall j :: 0 <= j < i ==> ExistsByUsername(repo.rows, Candidate(base, uuids[j]))
        invariant i <= FirstFree(repo.rows, base, uuids)
      {
        var username := base + "_" + uuids[i][..8];
        if FindByUsername(repo.rows, username).None? {
          assert (base + "_" + uuids[i][..8])[..|base|] == base;
          return Success(username);
        }
        i := i + 1;
      }
      return Failure(RetriesExhausted);
    }

    /**
     * `findOrCreateGoogleUser`: an account with the signed-in address is returned as it is;
     * otherwise a new enabled GOOGLE account with a generated username, role ROLE_USER and no
     * password is saved directly through the repository.
     */
    method FindOrCreateGoogleUser(attributes: map<string, string>, uuids: seq<string>)
      returns (r: Result<User, Fault>)
      requires repo.Valid()
      requires forall i :: 0 <= i < |uuids| ==> |uuids[i]| >= 8
      modifies repo
      ensures repo.Valid()
      ensures "email" in attributes && ExistsByEmail(old(repo.rows), attributes["email"]) ==>
        r == Success(FindByEmail(old(repo.rows), attributes["email"]).value) && repo.rows == old(repo.rows)
      ensures "email" !in attributes ==> r == Failure(NullPointer) && repo.rows == old(repo.rows)
      ensures r.Failure? ==> repo.rows == old(repo.rows)
      ensures r.Success? && !(old(ExistsByEmail(repo.rows, attributes["email"]))) ==>
        && repo.rows == old(repo.rows) + [r.value]
        && r.value.email == attributes["email"] && r.value.enabled && r.value.provider == Some(GOOGLE)
        && r.value.providerId == (if "sub" in attributes then Some(attributes["sub"]) else None)
        && r.value.password.None?
        && (forall n :: n in r.value.roles <==> n == ROLE_USER && ROLE_USER in knownRoles)
        && !ExistsByUsername(old(repo.rows), r.value.username)
      ensures "email" in attributes && !ExistsByEmail(old(repo.rows), attributes["email"]) ==>
        var email := attributes["email"];
        match SplitFirstAt(email)
        case Failure(_) => r == Failure(IndexOutOfBounds) && repo.rows == old(repo.rows)
        case Success(base) =>
          var k := FirstFree(old(repo.rows), base, uuids);
          && (k == |uuids| ==> r == Failure(RetriesExhausted) && repo.rows == old(repo.rows))
          && (k < |uuids| ==>
                && r.Success?
                && repo.rows == old(repo.rows) + [r.value]
                && r.value.id == Some(|old(repo.rows)|)
                && r.value.username == Candidate(base, uuids[k])
                && r.value.email == email
                && r.value.firstname == Attribute(attributes, "given_name")
                && r.value.lastname == Attribute(attributes, "family_name")
                && r.value.avatarUrl == Attribute(attributes, "picture")
                && r.value.providerId == Attribute(attributes, "sub")
                && r.value.provider == Some(GOOGLE)
                && r.value.enabled
                && r.value.password.None?
                && r.value.roles == RolesByNames(knownRoles, [ROLE_USER])
                && r.value.verificationCode.None? && r.value.verificationExpiresAt.None?)
    {
      if "email" !in attributes {
        return Failure(NullPointer);
      }
      var email := attributes["email"];
      var existing := FindByEmail(repo.rows, email);
      if existing.Some? {
        return Success(existing.value);
      }
      var generated := GenerateUsernameFromEmail(email, uuids);
      if generated.Failure? {
        return Failure(generated.error);
      }
      var newUser := NewUser(generated.value, email).(
        firstname := Attribute(attributes, "given_name"),
        lastname := Attribute(attributes, "family_name"),
        roles := RolesByNames(knownRoles, [ROLE_USER]),
        enabled := true,
        avatarUrl := Attribute(attributes, "picture"),
        provider := Some(GOOGLE),
        providerId := Attribute(attributes, "sub"));
      assert !Clashes(repo.rows, newUser);
      r := repo.Save(newUser);
    }
  }

  /**
   * The stored hash of a saved row is never encoded a second time: saving a row whose password
   * `saveUser` already wrote leaves the password as it is.
   */
  lemma ResaveKeepsPassword(user: User)
    requires user.password.Some?
    ensures WithStoredPassword(WithStoredPassword(user)) == WithStoredPassword(user)
    ensures IsBcryptHash(WithStoredPassword(user).password.value)
  {
    StoredPasswordIdempotent(user.password.value);
  }

  /**
   * `addUser` as written: an administrator who picks a password that starts like a BCrypt hash
   * gets it stored verbatim, and the account then rejects every password, that one included.
   */
  lemma AddUserLookalikeLocksAccount(rows: seq<User>, knownRoles: set<string>, req: AddUserRequest, attempt: string)
    requires WellFormed(rows) && Complete(req) && req.password == Some("$2a$Secret1!") && req.enabled
    requires !Clashes(rows, StoredAddedUser(knownRoles, req))
    ensures StoredAddedUser(knownRoles, req).password == Some("$2a$Secret1!")
    ensures !Authenticate(AfterSave(rows, StoredAddedUser(knownRoles, req)), Trim(req.username.value), attempt).Authenticated?
  {
    var pw := req.password.value;
    assert Trim(pw) == pw by {
      assert TrimStart(pw) == pw;
      assert TrimEnd(pw) == pw;
    }
    LookalikePassword(attempt);
    AuthenticateAfterSave(rows, StoredAddedUser(knownRoles, req), attempt);
  }

  /** With the password always encoded, an enabled added account logs in with its trimmed password. */
  lemma AddUserEncodedLogsIn(rows: seq<User>, knownRoles: set<string>, req: AddUserRequest)
    requires WellFormed(rows) && Complete(req) && req.enabled
    requires !Clashes(rows, EncodedAddedUser(knownRoles, req))
    ensures Authenticate(AfterSave(rows, EncodedAddedUser(knownRoles, req)), Trim(req.username.value), Trim(req.password.value))
         == Authenticated(Persisted(rows, EncodedAddedUser(knownRoles, req)))
  {
    AuthenticateAfterSave(rows, EncodedAddedUser(knownRoles, req), Trim(req.password.value));
  }
}
