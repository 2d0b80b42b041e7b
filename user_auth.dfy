/**
 * The Fluent user model and the two decisions built on it: `User.create`, which refuses a
 * second account for an email with a conflict before hashing and saving, and
 * `User.login`, which answers `nil` alike for an unknown email, a missing hash and a
 * wrong password. Bcrypt's `hash` and `verify` are parameters. The table is a sequence
 * of rows, and `.first()` is the first row that matches.
 */
module UserAuth {
  import opened Wrappers
  import opened Uuids
  import UserStore

  type Date = UserStore.Date

  /** The model `User` of table `users`; `password` holds the hash, never the plaintext. */
  datatype User = User(
    id: Option<Uuid>,
    displayName: string,
    email: string,
    passwordHash: Option<string>,
    locationCity: Option<string>,
    locationState: Option<string>,
    locationCountry: Option<string>,
    createdOn: Date)

  /** `username`: the display name. */
  function Username(u: User): (r: string)
    ensures r == u.displayName
  {
    u.displayName
  }

  /** `UserResponse`: what is sent back for a user. It has no password field. */
  datatype UserResponse = UserResponse(
    id: Option<Uuid>,
    displayName: string,
    email: string,
    locationCity: Option<string>,
    locationState: Option<string>,
    locationCountry: Option<string>,
    createdOn: Date)

  /** `UserResponse(from:)`: id, display name, email, location fields and `created_on` are copied. */
  function ResponseFrom(u: User): (r: UserResponse)
    ensures r.id == u.id && r.displayName == u.displayName && r.email == u.email
    ensures r.locationCity == u.locationCity && r.locationState == u.locationState && r.locationCountry == u.locationCountry
    ensures r.createdOn == u.createdOn
  {
    UserResponse(u.id, u.displayName, u.email, u.locationCity, u.locationState, u.locationCountry, u.createdOn)
  }

  /** Nothing of the password reaches the response: users differing only in the hash respond alike. */
  lemma ResponseIgnoresPassword(u: User, otherHash: Option<string>)
    ensures ResponseFrom(u.(passwordHash := otherHash)) == ResponseFrom(u)
  {
  }

  /** The failure `create` throws (`HTTPError(.conflict)`). */
  datatype AuthError = Conflict

  /** Where `.filter(\.$email == email).first()` finds its row: the first index with that email. */
  function {:induction false} FindEmail(rows: seq<User>, email: string): (r: Option<nat>)
    ensures r.Some? ==> r.value < |rows| && rows[r.value].email == email
    ensures r.Some? ==> forall j | 0 <= j < r.value :: rows[j].email != email
    ensures r.None? <==> forall j | 0 <= j < |rows| :: rows[j].email != email
  {
    if rows == [] then None
    else if rows[0].email == email then Some(0)
    else
      match FindEmail(rows[1..], email)
      case None => (assert forall j | 1 <= j < |rows| :: rows[j] == rows[1..][j - 1]; None)
      case Some(i) => (assert forall j | 1 <= j <= i + 1 :: rows[j] == rows[1..][j - 1]; Some(i + 1))
  }

  /** The user `.first()` returns: the first row with the email, and none when no row has it. */
  function FirstWithEmail(rows: seq<User>, email: string): (r: Option<User>)
    ensures r.None? <==> forall j | 0 <= j < |rows| :: rows[j].email != email
    ensures r.Some? ==>
      && r.value.email == email
      && exists i | 0 <= i < |rows| :: rows[i] == r.value && forall j | 0 <= j < i :: rows[j].email != email
  {
    match FindEmail(rows, email)
    case Some(i) => Some(rows[i])
    case None => None
  }

  /** The number of rows with the given email. */
  function {:induction false} CountEmail(rows: seq<User>, email: string): nat
  {
    if rows == [] then 0 else (if rows[0].email == email then 1 else 0) + CountEmail(rows[1..], email)
  }

  /** Appending a row adds one to the count of its own email and nothing to the others. */
  lemma {:induction false} CountEmailAppend(rows: seq<User>, u: User, email: string)
    ensures CountEmail(rows + [u], email) == CountEmail(rows, email) + (if u.email == email then 1 else 0)
  {
    if rows != [] {
      assert (rows + [u])[1..] == rows[1..] + [u];
      CountEmailAppend(rows[1..], u, email);
    }
  }

  /** No row has the email exactly when the count is zero. */
  lemma {:induction false} CountEmailZero(rows: seq<User>, email: string)
    ensures CountEmail(rows, email) == 0 <==> FindEmail(rows, email).None?
  {
    if rows != [] {
      CountEmailZero(rows[1..], email);
    }
  }

  /**
   * No two rows share an email. Nothing in the `users` table enforces this; it holds only
   * because `create` refuses a duplicate (`CreateKeepsUniqueEmails`).
   */
  predicate UniqueEmails(rows: seq<User>)
  {
    forall i, j | 0 <= i < j < |rows| :: rows[i].email != rows[j].email
  }

  /** The row `create` saves: the hash of the password, the id Fluent assigns on save, the other fields as given. */
  function NewUser(displayName: string, email: string, password: string, locationCity: Option<string>,
                   locationState: Option<string>, locationCountry: Option<string>, createdOn: Date,
                   newId: Uuid, hash: string -> string): User
  {
    User(Some(newId), displayName, email, Some(hash(password)), locationCity, locationState, locationCountry, createdOn)
  }

  /**
   * `User.create`: with a row already holding the email, a conflict and no change;
   * otherwise exactly one new row, holding `hash(password)`, appended and returned.
   */
  function CreateOutcome(rows: seq<User>, displayName: string, email: string, password: string,
                  locationCity: Option<string>, locationState: Option<string>, locationCountry: Option<string>,
                  createdOn: Date, newId: Uuid, hash: string -> string): (r: (seq<User>, Result<User, AuthError>))
    ensures FindEmail(rows, email).Some? <==> r.1 == Failure(Conflict)
    ensures r.1.Failure? ==> r.0 == rows
    ensures r.1.Success? ==>
      && r.0 == rows + [r.1.value]
      && r.1.value.passwordHash == Some(hash(password))
      && r.1.value.email == email && r.1.value.displayName == displayName
      && r.1.value.locationCity == locationCity && r.1.value.locationState == locationState
      && r.1.value.locationCountry == locationCountry && r.1.value.createdOn == createdOn
      && r.1.value.id == Some(newId)
  {
    if FindEmail(rows, email).Some? then (rows, Failure(Conflict))
    else
      var u := NewUser(displayName, email, password, locationCity, locationState, locationCountry, createdOn, newId, hash);
      (rows + [u], Success(u))
  }

  /** `create` keeps emails unique. */
  lemma CreateKeepsUniqueEmails(rows: seq<User>, displayName: string, email: string, password: string,
                                locationCity: Option<string>, locationState: Option<string>, locationCountry: Option<string>,
                                createdOn: Date, newId: Uuid, hash: string -> string)
    requires UniqueEmails(rows)
    ensures UniqueEmails(CreateOutcome(rows, displayName, email, password, locationCity, locationState, locationCountry, createdOn, newId, hash).0)
  {
  }

  /**
   * Uniqueness: two `create` calls with the same email when none was stored. The first
   * succeeds, the second fails with a conflict, and the table then holds exactly one
   * user with that email.
   */
  lemma CreateTwiceConflicts(rows: seq<User>, email: string, password1: string, password2: string,
                             name1: string, name2: string, createdOn: Date, id1: Uuid, id2: Uuid, hash: string -> string)
    requires FindEmail(rows, email).None?
    ensures var (rows1, first) := CreateOutcome(rows, name1, email, password1, None, None, None, createdOn, id1, hash);
            var (rows2, second) := CreateOutcome(rows1, name2, email, password2, None, None, None, createdOn, id2, hash);
            first.Success? && second == Failure(Conflict) && rows2 == rows1 && CountEmail(rows2, email) == 1
  {
    var (rows1, first) := CreateOutcome(rows, name1, email, password1, None, None, None, createdOn, id1, hash);
    assert rows1[|rows|].email == email;
    CountEmailZero(rows, email);
    CountEmailAppend(rows, first.value, email);
  }

  /**
   * `User.login`: `nil` when no row has the email, when the row has no hash, or when
   * `verify` rejects the password; the matched user otherwise.
   */
  function Login(rows: seq<User>, email: string, password: string, verify: (string, string) -> bool): (r: Option<User>)
    ensures FirstWithEmail(rows, email).None? ==> r.None?
    ensures FirstWithEmail(rows, email).Some? && FirstWithEmail(rows, email).value.passwordHash.None? ==> r.None?
    ensures r.Some? <==>
      && FirstWithEmail(rows, email).Some?
      && FirstWithEmail(rows, email).value.passwordHash.Some?
      && verify(password, FirstWithEmail(rows, email).value.passwordHash.value)
    ensures r.Some? ==> r == FirstWithEmail(rows, email) && r.value.email == email
  {
    match FirstWithEmail(rows, email)
    case None => None
    case Some(user) =>
      match user.passwordHash
      case None => None
      case Some(passwordHash) => if verify(password, passwordHash) then Some(user) else None
  }

  /**
   * A user just created can log in with the password given, as long as `verify`
   * accepts a password against its own hash.
   */
  lemma LoginAfterCreate(rows: seq<User>, displayName: string, email: string, password: string,
                         locationCity: Option<string>, locationState: Option<string>, locationCountry: Option<string>,
                         createdOn: Date, newId: Uuid, hash: string -> string, verify: (string, string) -> bool)
    requires FindEmail(rows, email).None?
    requires verify(password, hash(password))
    ensures var (rows', created) := CreateOutcome(rows, displayName, email, password, locationCity, locationState, locationCountry, createdOn, newId, hash);
            created.Success? && Login(rows', email, password, verify) == Some(created.value)
  {
    var (rows', created) := CreateOutcome(rows, displayName, email, password, locationCity, locationState, locationCountry, createdOn, newId, hash);
    assert rows'[|rows|] == created.value;
    assert forall j | 0 <= j < |rows| :: rows'[j] == rows[j];
    var i := FindEmail(rows', email);
    assert i == Some(|rows|);
  }

  /** The user table as the database holds it. */
  class UserDatabase {
    var users: seq<User>

    constructor (users: seq<User>)
      ensures this.users == users
    {
      this.users := users;
    }

    /**
     * `User.create`: look for the email, refuse with a conflict, hash the password,
     * save the new row. `newId` is the id Fluent generates on save.
     */
    method Create(displayName: string, email: string, password: string, locationCity: Option<string>,
                  locationState: Option<string>, locationCountry: Option<string>, createdOn: Date,
                  newId: Uuid, hash: string -> string) returns (result: Result<User, AuthError>)
      modifies this
      ensures (users, result) == CreateOutcome(old(users), displayName, email, password, locationCity, locationState, locationCountry, createdOn, newId, hash)
    {
      var existingUser := FirstWithEmail(users, email);
      if existingUser.Some? {
        return Failure(Conflict);
      }
      var passwordHash := hash(password);
      var user := User(Some(newId), displayName, email, Some(passwordHash), locationCity, locationState, locationCountry, createdOn);
      users := users + [user];
      return Success(user);
    }
  }
}
