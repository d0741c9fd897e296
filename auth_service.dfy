/** Registration, lookup and password checking (authService.js). */
module AuthService {
  import opened Common
  import opened Db

  /** The message of the error `createUser` throws for a taken username. */
  const AlreadyRegistered := "Username already registered."

  /** Why a registration inserted nothing. */
  datatype CreateError =
    | DuplicateUsername  // a row with the username exists
    | HashFailed         // bcrypt could not hash the password

  /**
   * The table after a registration attempt, given what bcrypt returned for
   * the password (`None` when hashing failed), or why nothing was inserted.
   * The username is checked before the password is hashed.
   */
  function Registration(rows: seq<User>, username: string, digest: Option<string>)
    : (r: Result<seq<User>, CreateError>)
    ensures r == Failure(DuplicateUsername) <==> Taken(rows, username)
    ensures r == Failure(HashFailed) <==> !Taken(rows, username) && digest == None
    ensures r.Success? ==> digest.Some? && r.value == rows + [User(username, digest.value, 0)]
  {
    if FirstIndex(rows, username) < |rows| then Failure(DuplicateUsername)
    else if digest.None? then Failure(HashFailed)
    else Success(rows + [User(username, digest.value, 0)])
  }

  /**
   * `createUser`: returns `true` after inserting `(username, hash, 0)`, or
   * throws (`Failure`) and leaves the table as it was. `hash` is
   * `bcrypt.hash(_, SALT_ROUNDS)` for this call's salt; `None` means it threw.
   */
  method CreateUser(table: UsersTable, username: string, password: string, hash: string -> Option<string>)
    returns (r: Result<bool, CreateError>)
    modifies table
    ensures match Registration(old(table.rows), username, hash(password))
      case Success(rows) => r == Success(true) && table.rows == rows
      case Failure(e) => r == Failure(e) && table.rows == old(table.rows)
    ensures old(table.Valid()) ==> table.Valid()
  {
    if FirstIndex(table.rows, username) < |table.rows| {
      return Failure(DuplicateUsername);
    }
    var digest := hash(password);
    if digest.None? {
      return Failure(HashFailed);
    }
    table.Insert(username, digest.value);
    return Success(true);
  }

  /**
   * `findUserByUsername`: the first row with that username, or `null`.
   * `result` is what the `SELECT` returns, `None` when the query throws;
   * the error is caught and gives `null` too.
   */
  function FindUserByUsername(result: Option<seq<User>>, username: string): (r: Option<User>)
    ensures result.None? ==> r.None?
    ensures result.Some? ==> (r.None? <==> !Taken(result.value, username))
    ensures r.Some? ==> result.Some? && r.value in result.value && r.value.username == username
    ensures r.Some? && UniqueUsernames(result.value) ==>
      forall u :: u in result.value && u.username == username ==> u == r.value
  {
    match result
    case None => None
    case Some(rows) =>
      var i := FirstIndex(rows, username);
      if i < |rows| then Some(rows[i]) else None
  }

  /**
   * `verifyPassword`: what `bcrypt.compare` answers, and `false` when the
   * comparison throws (`compare` gives `None`).
   */
  function VerifyPassword(compare: (string, string) -> Option<bool>, password: string, hashed: string)
    : (ok: bool)
    ensures ok <==> compare(password, hashed) == Some(true)
    ensures compare(password, hashed) == None ==> !ok
  {
    match compare(password, hashed)
    case Some(matches) => matches
    case None => false
  }

  /** A registration keeps usernames distinct. */
  lemma RegistrationKeepsUnique(rows: seq<User>, username: string, digest: Option<string>)
    requires UniqueUsernames(rows)
    requires Registration(rows, username, digest).Success?
    ensures UniqueUsernames(Registration(rows, username, digest).value)
  {
    var after := Registration(rows, username, digest).value;
    forall i, j | 0 <= i < j < |after| ensures after[i].username != after[j].username {
      if j == |rows| {
        assert rows[i].username == after[i].username;
      }
    }
  }

  /** A registration changes no existing row and no other user's lookup. */
  lemma RegistrationKeepsOthers(rows: seq<User>, username: string, digest: Option<string>, other: string)
    requires Registration(rows, username, digest).Success?
    requires other != username
    ensures Registration(rows, username, digest).value[..|rows|] == rows
    ensures FindUserByUsername(Some(Registration(rows, username, digest).value), other)
         == FindUserByUsername(Some(rows), other)
  {
    var after := Registration(rows, username, digest).value;
    assert after[..|rows|] == rows;
    var i, j := FirstIndex(after, other), FirstIndex(rows, other);
    if j < |rows| {
      assert after[j] == rows[j];
    } else {
      assert !Taken(after, other) by {
        forall k | 0 <= k < |after| ensures after[k].username != other {
          if k < |rows| { assert after[k] == rows[k]; }
        }
      }
    }
  }

  /** After a successful registration the new user is found, with highscore 0. */
  lemma FoundAfterRegistration(rows: seq<User>, username: string, digest: Option<string>)
    requires Registration(rows, username, digest).Success?
    ensures FindUserByUsername(Some(Registration(rows, username, digest).value), username)
         == Some(User(username, digest.value, 0))
  {
    var after := Registration(rows, username, digest).value;
    forall k | 0 <= k < |rows| ensures after[k].username != username {
      assert after[k] == rows[k];
    }
    assert after[|rows|].username == username;
  }

  /** Registering the same username twice: the second attempt fails as a duplicate. */
  lemma SecondRegistrationFails(rows: seq<User>, username: string, first: Option<string>, second: Option<string>)
    requires Registration(rows, username, first).Success?
    ensures Registration(Registration(rows, username, first).value, username, second)
         == Failure(DuplicateUsername)
  {
    var after := Registration(rows, username, first).value;
    assert after[|rows|].username == username;
  }
}
