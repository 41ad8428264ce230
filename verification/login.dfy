/**
 * The decisions of the login screen (`LoginActivity`): field validation,
 * logging in, registering, and the default account created when the
 * screen opens. Toasts, focus, intents and activity switches are left out;
 * the outcome datatypes record what the screen would go on to do.
 */
module Login {
  import opened Wrappers
  import opened Entities
  import opened KotlinText
  import opened Rows
  import opened TravelDb
  import opened StoreFacts

  /** The message `validateFields` puts on a field, in the order the checks run. */
  datatype FieldError = UsernameMissing | UsernameTooShort | PasswordMissing | PasswordTooShort

  /** `validateFields`: `None` when the fields are acceptable, else the first check that failed. */
  function ValidateFields(username: string, password: string): (r: Option<FieldError>)
    ensures r == None <==> Utf16Length(username) >= 3 && Utf16Length(password) >= 4
    ensures r == Some(UsernameMissing) <==> |username| == 0
    ensures r == Some(UsernameTooShort) <==> 0 < Utf16Length(username) < 3
    ensures r == Some(PasswordMissing) <==> Utf16Length(username) >= 3 && |password| == 0
    ensures r == Some(PasswordTooShort) <==> Utf16Length(username) >= 3 && 0 < Utf16Length(password) < 4
  {
    if |username| == 0 then Some(UsernameMissing)
    else if Utf16Length(username) < 3 then Some(UsernameTooShort)
    else if |password| == 0 then Some(PasswordMissing)
    else if Utf16Length(password) < 4 then Some(PasswordTooShort)
    else None
  }

  /** A character beyond the BMP counts twice: a password of one emoji and one letter is three units, too short. */
  lemma SurrogatePairCountsTwice()
    ensures Utf16Length("\U{1F600}a") == 3
    ensures ValidateFields("abc", "\U{1F600}a") == Some(PasswordTooShort)
  {
    assert IsSupplementary('\U{1F600}') && !IsSupplementary('a');
  }

  /** What pressing the login button leads to. */
  datatype LoginOutcome =
    | LoginRejected(error: FieldError)
    | WrongCredentials
    | LoggedIn(userId: int, username: string)

  /**
   * `performLogin`: trims both fields, validates them, and opens the main
   * screen with the id and username of the matching account.
   */
  function PerformLogin(db: Db, usernameField: string, passwordField: string): (r: LoginOutcome)
    ensures var u, p := Trim(usernameField), Trim(passwordField);
            && (r.LoginRejected? <==> ValidateFields(u, p).Some?)
            && (r.LoggedIn? <==>
                  ValidateFields(u, p) == None &&
                  exists i :: 0 <= i < |db.users| && db.users[i].username == u && db.users[i].password == p)
            && (r.LoggedIn? ==> r.username == u && exists user :: user in db.users && user.id == r.userId &&
                                                                   user.username == u && user.password == p)
  {
    var username := Trim(usernameField);
    var password := Trim(passwordField);
    match ValidateFields(username, password)
    case Some(e) => LoginRejected(e)
    case None =>
      match AuthenticateUser(db, username, password)
      case None => WrongCredentials
      case Some(user) => LoggedIn(user.id, user.username)
  }

  /** What pressing the register button leads to. */
  datatype RegisterOutcome =
    | RegisterRejected(error: FieldError)
    | UsernameTaken
    | RegisterFailed
    | Registered(userId: int, username: string)

  datatype Registration = Registration(db: Db, outcome: RegisterOutcome)

  /**
   * `performRegister`: trims and validates both fields, refuses a taken
   * username without touching the store, and otherwise inserts an account
   * whose full name is the username.
   */
  function PerformRegister(db: Db, usernameField: string, passwordField: string): (r: Registration)
    ensures var u, p := Trim(usernameField), Trim(passwordField);
            && (r.outcome.RegisterRejected? <==> ValidateFields(u, p).Some?)
            && (r.outcome == UsernameTaken <==> ValidateFields(u, p) == None && UserExists(db, u))
            && (!r.outcome.Registered? ==> r.db == db)
            && (r.outcome.Registered? ==>
                  && r.outcome.username == u
                  && r.outcome.userId != InsertFailed
                  && db.userSeq < r.outcome.userId <= MaxRowId
                  && r.db.users == db.users + [User(r.outcome.userId, u, p, u)]
                  && r.db == db.(users := r.db.users, userSeq := r.outcome.userId))
  {
    var username := Trim(usernameField);
    var password := Trim(passwordField);
    match ValidateFields(username, password)
    case Some(e) => Registration(db, RegisterRejected(e))
    case None =>
      if UserExists(db, username) then Registration(db, UsernameTaken)
      else
        var w := InsertUser(db, User(username := username, password := password, fullName := username));
        if w.value != InsertFailed then
          Registration(w.db, Registered(w.value, username))
        else Registration(db, RegisterFailed)
  }

  /** Registration fails only for want of ids: with one left, a valid, free username is registered. */
  lemma RegisterSucceedsWhenFree(db: Db, usernameField: string, passwordField: string)
    requires ValidateFields(Trim(usernameField), Trim(passwordField)) == None
    requires !UserExists(db, Trim(usernameField))
    requires NextId(db.users, UserRowId, db.userSeq) <= MaxRowId
    ensures PerformRegister(db, usernameField, passwordField).outcome.Registered?
  {
  }

  /** Whoever has just registered can log in at once with the same field texts. */
  lemma RegisterThenLogin(db: Db, usernameField: string, passwordField: string)
    ensures var r := PerformRegister(db, usernameField, passwordField);
            r.outcome.Registered? ==>
              PerformLogin(r.db, usernameField, passwordField) == LoggedIn(r.outcome.userId, r.outcome.username)
  {
    var u, p := Trim(usernameField), Trim(passwordField);
    var r := PerformRegister(db, usernameField, passwordField);
    if r.outcome.Registered? {
      InsertUserThenAuthenticate(db, User(username := u, password := p, fullName := u));
    }
  }

  /** A second registration with the same username is refused. */
  lemma RegisterTwiceTaken(db: Db, usernameField: string, passwordField: string, otherPassword: string)
    requires ValidateFields(Trim(usernameField), Trim(otherPassword)) == None
    ensures var r := PerformRegister(db, usernameField, passwordField);
            r.outcome.Registered? ==> PerformRegister(r.db, usernameField, otherPassword).outcome == UsernameTaken
  {
    var r := PerformRegister(db, usernameField, passwordField);
    if r.outcome.Registered? {
      assert r.db.users[|db.users|].username == Trim(usernameField);
    }
  }

  // ---------------------------------------------------------------- default account

  const AdminName: string := "admin"
  const AdminPassword: string := "123456"
  const AdminFullName: string := "Administrador"

  /** `createDefaultUser`: inserts the account admin / 123456 / Administrador unless `admin` exists. */
  function CreateDefaultUser(db: Db): (r: Db)
    ensures UserExists(db, AdminName) ==> r == db
    ensures NextId(db.users, UserRowId, db.userSeq) > MaxRowId ==> r == db
    ensures !UserExists(db, AdminName) && NextId(db.users, UserRowId, db.userSeq) <= MaxRowId ==>
              && AuthenticateUser(r, AdminName, AdminPassword).Some?
              && r.users == db.users + [User(r.userSeq, AdminName, AdminPassword, AdminFullName)]
              && r == db.(users := r.users, userSeq := r.userSeq)
  {
    if UserExists(db, AdminName) then db
    else
      var admin := User(username := AdminName, password := AdminPassword, fullName := AdminFullName);
      InsertUserThenAuthenticate(db, admin);
      InsertUser(db, admin).db
  }

  /** Creating the default account keeps the store's constraints. */
  lemma CreateDefaultUserKeepsValid(db: Db)
    requires Valid(db)
    ensures Valid(CreateDefaultUser(db))
  {
    InsertUserKeepsValid(db, User(username := AdminName, password := AdminPassword, fullName := AdminFullName));
  }

  /** Opening the login screen again does nothing more once the default account exists. */
  lemma CreateDefaultUserIdempotent(db: Db)
    ensures CreateDefaultUser(CreateDefaultUser(db)) == CreateDefaultUser(db)
  {
    var admin := User(username := AdminName, password := AdminPassword, fullName := AdminFullName);
    var w := InsertUser(db, admin);
    if !UserExists(db, AdminName) && w.value != InsertFailed {
      assert w.db.users[|db.users|].username == AdminName;
    }
  }

  /** Under the UNIQUE constraint on usernames, a lookup by name selects at most one row. */
  lemma {:induction false} UniqueNamesCountAtMostOne(users: seq<User>, name: string)
    requires UsernamesUnique(users)
    ensures |Filter(users, Named(name))| <= 1
    decreases |users|
  {
    if |users| > 0 {
      UniqueNamesCountAtMostOne(users[1..], name);
      if users[0].username == name {
        forall i | 0 <= i < |users[1..]|
          ensures !Named(name)(users[1..][i])
        {
          assert users[1..][i] == users[i + 1];
        }
        FilterNone(users[1..], Named(name));
      }
    }
  }

  /** Whatever the earlier openings did, afterwards exactly one account is named admin (ids permitting). */
  lemma ExactlyOneAdmin(db: Db)
    requires Valid(db)
    requires NextId(db.users, UserRowId, db.userSeq) <= MaxRowId
    ensures |Filter(CreateDefaultUser(db).users, Named(AdminName))| == 1
  {
    var r := CreateDefaultUser(db);
    CreateDefaultUserKeepsValid(db);
    UniqueNamesCountAtMostOne(r.users, AdminName);
    var admins := Filter(r.users, Named(AdminName));
    if UserExists(db, AdminName) {
      var i :| 0 <= i < |db.users| && db.users[i].username == AdminName;
      assert Named(AdminName)(r.users[i]);
      assert r.users[i] in admins;
    } else {
      assert Named(AdminName)(r.users[|db.users|]);
      assert r.users[|db.users|] in admins;
    }
  }
}
