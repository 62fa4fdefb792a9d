/**
 * The user table both code generations share (`users`), and the JPA repository in front of
 * it. A row's id is its position in the table; usernames and e-mail addresses are unique
 * columns, so a save that would duplicate one fails as the database constraint does.
 */
module Users {
  import opened Wrappers
  import opened Errors

  datatype Provider = LOCAL | GOOGLE

  /**
   * One row. The verification code and its expiry are only used by the legacy generation;
   * `password` is null for accounts created through Google sign-in.
   */
  datatype User = User(
    id: Option<nat>,
    username: string,
    email: string,
    password: Option<string>,
    firstname: Option<string>,
    lastname: Option<string>,
    avatarUrl: Option<string>,
    provider: Option<Provider>,
    providerId: Option<string>,
    roles: set<string>,
    enabled: bool,
    verificationCode: Option<string>,
    verificationExpiresAt: Option<int>)

  /** A row as the builder leaves it before any field is set. */
  function NewUser(username: string, email: string): User
  {
    User(None, username, email, None, None, None, None, None, None, {}, false, None, None)
  }

  // ---------------------------------------------------------------- queries

  /** `existsByUsername`. */
  predicate ExistsByUsername(rows: seq<User>, name: string)
  {
    exists i :: 0 <= i < |rows| && rows[i].username == name
  }

  /** `existsByEmail`. */
  predicate ExistsByEmail(rows: seq<User>, email: string)
  {
    exists i :: 0 <= i < |rows| && rows[i].email == email
  }

  /** Position of the first row with this username, or |rows| when there is none. */
  function IndexOfUsername(rows: seq<User>, name: string): (k: nat)
    ensures k <= |rows|
    ensures k < |rows| ==> rows[k].username == name
    ensures forall j :: 0 <= j < k ==> rows[j].username != name
  {
    if rows == [] then 0
    else if rows[0].username == name then 0
    else 1 + IndexOfUsername(rows[1..], name)
  }

  /** Position of the first row with this e-mail address, or |rows| when there is none. */
  function IndexOfEmail(rows: seq<User>, email: string): (k: nat)
    ensures k <= |rows|
    ensures k < |rows| ==> rows[k].email == email
    ensures forall j :: 0 <= j < k ==> rows[j].email != email
  {
    if rows == [] then 0
    else if rows[0].email == email then 0
    else 1 + IndexOfEmail(rows[1..], email)
  }

  /** `findByUsername`: the row with this username, if any. */
  function FindByUsername(rows: seq<User>, name: string): (r: Option<User>)
    ensures r.Some? <==> ExistsByUsername(rows, name)
    ensures r.Some? ==> r.value in rows && r.value.username == name
  {
    var k := IndexOfUsername(rows, name);
    if k < |rows| then Some(rows[k]) else None
  }

  /** `findByEmail`: the row with this e-mail address, if any. */
  function FindByEmail(rows: seq<User>, email: string): (r: Option<User>)
    ensures r.Some? <==> ExistsByEmail(rows, email)
    ensures r.Some? ==> r.value in rows && r.value.email == email
  {
    var k := IndexOfEmail(rows, email);
    if k < |rows| then Some(rows[k]) else None
  }

  /** Ids are positions, and no two rows share a username or an e-mail address. */
  predicate WellFormed(rows: seq<User>)
  {
    && (forall i :: 0 <= i < |rows| ==> rows[i].id == Some(i))
    && (forall i, j :: 0 <= i < |rows| && 0 <= j < |rows| && i != j ==>
          rows[i].username != rows[j].username && rows[i].email != rows[j].email)
  }

  /** In a well-formed table every row is found by its own username and by its own address. */
  lemma FindOwnRow(rows: seq<User>, k: nat)
    requires WellFormed(rows) && k < |rows|
    ensures FindByUsername(rows, rows[k].username) == Some(rows[k])
    ensures FindByEmail(rows, rows[k].email) == Some(rows[k])
  {
    var i := IndexOfUsername(rows, rows[k].username);
    assert i <= k;
    var j := IndexOfEmail(rows, rows[k].email);
    assert j <= k;
  }

  // ---------------------------------------------------------------- saving

  /** The position a save writes: the row's own slot when it has one, else a new last row. */
  function SlotOf(rows: seq<User>, u: User): (k: nat)
    ensures k <= |rows|
    ensures k < |rows| <==> u.id.Some? && u.id.value < |rows|
  {
    if u.id.Some? && u.id.value < |rows| then u.id.value else |rows|
  }

  /** Saving `u` would give another row's username or e-mail address a second owner. */
  predicate Clashes(rows: seq<User>, u: User)
  {
    exists i :: 0 <= i < |rows| && i != SlotOf(rows, u) && (rows[i].username == u.username || rows[i].email == u.email)
  }

  /** The row `save` writes: `u` with its slot as id. */
  function Persisted(rows: seq<User>, u: User): User
  {
    u.(id := Some(SlotOf(rows, u)))
  }

  /** The table after a successful save: update in place, or insert at the end. */
  function AfterSave(rows: seq<User>, u: User): (r: seq<User>)
    ensures |r| == if SlotOf(rows, u) < |rows| then |rows| else |rows| + 1
  {
    var k := SlotOf(rows, u);
    if k == |rows| then rows + [Persisted(rows, u)] else rows[k := Persisted(rows, u)]
  }

  /** A save without a clash keeps the table well formed, touches one slot and makes the row findable. */
  lemma SaveKeepsWellFormed(rows: seq<User>, u: User)
    requires WellFormed(rows) && !Clashes(rows, u)
    ensures WellFormed(AfterSave(rows, u))
    ensures var k := SlotOf(rows, u);
      && AfterSave(rows, u)[k] == Persisted(rows, u)
      && (forall i :: 0 <= i < |rows| && i != k ==> AfterSave(rows, u)[i] == rows[i])
    ensures FindByUsername(AfterSave(rows, u), u.username) == Some(Persisted(rows, u))
    ensures FindByEmail(AfterSave(rows, u), u.email) == Some(Persisted(rows, u))
  {
    var r := AfterSave(rows, u);
    var k := SlotOf(rows, u);
    assert r[k] == Persisted(rows, u);
    forall i, j | 0 <= i < |r| && 0 <= j < |r| && i != j
      ensures r[i].username != r[j].username && r[i].email != r[j].email
    {
      if i == k {
        assert r[j] == rows[j];
      } else if j == k {
        assert r[i] == rows[i];
      } else {
        assert r[i] == rows[i] && r[j] == rows[j];
      }
    }
    FindOwnRow(r, k);
  }

  class UserRepository {
    var rows: seq<User>

    predicate Valid()
      reads this
    {
      WellFormed(rows)
    }

    constructor ()
      ensures Valid() && rows == []
    {
      rows := [];
    }

    /**
     * `save`: writes the row at its id, or appends it with a new id; a duplicate username or
     * e-mail address is refused by the unique constraints and nothing changes.
     */
    method Save(u: User) returns (r: Result<User, Fault>)
      requires Valid()
      modifies this
      ensures Valid()
      ensures Clashes(old(rows), u) ==> r == Failure(DataIntegrity) && rows == old(rows)
      ensures !Clashes(old(rows), u) ==> r == Success(Persisted(old(rows), u)) && rows == AfterSave(old(rows), u)
    {
      if Clashes(rows, u) {
        return Failure(DataIntegrity);
      }
      SaveKeepsWellFormed(rows, u);
      var k := SlotOf(rows, u);
      var stored := u.(id := Some(k));
      if k == |rows| {
        rows := rows + [stored];
      } else {
        rows := rows[k := stored];
      }
      return Success(stored);
    }
  }

  // ---------------------------------------------------------------- roles

  /** `roleService.getRolesByNames`: the names that exist in the role table. */
  function RolesByNames(known: set<string>, names: seq<string>): (r: set<string>)
    ensures forall n :: n in r <==> n in known && n in names
  {
    set n | n in names && n in known
  }

  /** `roleService.findByName`. */
  function FindRole(known: set<string>, name: string): (r: Option<string>)
    ensures r.Some? <==> name in known
    ensures r.Some? ==> r.value == name
  {
    if name in known then Some(name) else None
  }

  const ROLE_USER: string := "ROLE_USER"
}
