/**
 The server actions. Each runs its chain of checks and then performs at most
 the writes the source performs, as a pure transition from the database (and
 the session, the input and the oracles) to an answer and a new database.
 */
module UserAction {
  import opened Wrappers
  import opened Store
  import opened EmailCode

  /**
   The foreign calls: the schema's email check, Argon2id hashing and Argon2id
   verification of a password against a stored hash. They are left
   uninterpreted.
   */
  datatype Crypto = Crypto(isEmail: string -> bool, hash: string -> string, verify: (string, string) -> bool)

  /** The values an action can settle with. */
  datatype Answer =
    | Reply(data: Option<User>, error: Option<string>)  // the `{ data, error }` object
    | Flag(ok: bool)                                    // a bare `true` / `false`
    | Deleted(user: User)                               // the row `deleteUser` removed
    | Escaped                                           // an exception the action does not catch

  const InvalidValues: string := "Invalid values"
  const FailedToCreateUser: string := "Failed to create user"
  const InvalidEmail: string := "Invalid email"
  const InvalidPassword: string := "Invalid password"
  const UserNotFound: string := "User not found"
  const InvalidSession: string := "Invalid session"
  const EmailNotVerified: string := "Email not verified"
  const InvalidUsername: string := "Invalid username"
  /**
   Stands in for the error object that the catch in `resendEmailVerificationCode`
   forwards when the delete finds no row; that path is unreachable after a
   successful issuance.
   */
  const RecordNotFound: string := "Record to delete does not exist."

  function Refuse(msg: string): Answer {
    Reply(None, Some(msg))
  }

  /** `z.string().min(8).max(255)`, the server-side password bounds. */
  predicate ServerPasswordOk(password: string) {
    8 <= |password| <= 255
  }

  /** `z.string().min(3).max(255)`, the server-side username bounds. */
  predicate ServerUsernameOk(username: string) {
    3 <= |username| <= 255
  }

  /** Fields of a user row other than the password hash are the same. */
  predicate SameButPassword(a: User, b: User) {
    a.id == b.id && a.username == b.username && a.email == b.email && a.emailVerified == b.emailVerified
  }

  predicate SameButEmail(a: User, b: User) {
    a.id == b.id && a.username == b.username && a.passwordHash == b.passwordHash && a.emailVerified == b.emailVerified
  }

  predicate SameButUsername(a: User, b: User) {
    a.id == b.id && a.email == b.email && a.passwordHash == b.passwordHash && a.emailVerified == b.emailVerified
  }

  /** `b` is `a` with at most row `i` replaced. */
  predicate OnlyRowChanged(a: seq<User>, b: seq<User>, i: nat) {
    |a| == |b| && i < |a| && forall j :: 0 <= j < |a| && j != i ==> b[j] == a[j]
  }

  /** Whether some user other than row `i` already has `email`. */
  predicate EmailTakenByOther(users: seq<User>, i: nat, email: string) {
    exists j :: 0 <= j < |users| && j != i && users[j].email == email
  }

  /** The row `createUser` inserts; `emailVerified` takes the column's default, false. */
  function NewUser(id: UserId, user: ClientUser, crypto: Crypto): User {
    User(id, user.username, user.email, crypto.hash(user.password), false)
  }

  // ---------------------------------------------------------------------------

  /**
   `createUser`: validate, hash, insert the user row, issue a verification
   code, mail it and open a session. `newId` is the id the database assigns;
   `allowed`, `generated` and `now` feed the code issuance.
   */
  function CreateUser(db: Db, crypto: Crypto, user: ClientUser, newId: UserId,
                      allowed: bool, generated: string, now: int): (r: (Answer, Db))
    requires IsGeneratedCode(generated)
    ensures !crypto.isEmail(user.email) ==> r == (Refuse(InvalidValues), db)
    ensures crypto.isEmail(user.email) && (FindUserById(db.users, newId).Some? || FindUserByEmail(db.users, user.email).Some?) ==>
              r == (Refuse(FailedToCreateUser), db)
    ensures FindUserById(db.users, newId).Some? || FindUserByEmail(db.users, user.email).Some? ==>
              r == (Refuse(InvalidValues), db) || r == (Refuse(FailedToCreateUser), db)
    ensures r.1 != db ==> crypto.isEmail(user.email) && r.1.users == db.users + [NewUser(newId, user, crypto)]
    ensures r.1 != db && !allowed ==> r.0 == Refuse(FailedToCreateUser) && r.1.codes == db.codes && r.1.sessions == db.sessions
    ensures (crypto.isEmail(user.email) && FindUserById(db.users, newId).None? && FindUserByEmail(db.users, user.email).None? && !allowed)
            ==> r == (Refuse(FailedToCreateUser), db.(users := db.users + [NewUser(newId, user, crypto)]))
    ensures r.0.Reply? && r.0.error.None? <==>
              && crypto.isEmail(user.email)
              && FindUserById(db.users, newId).None?
              && FindUserByEmail(db.users, user.email).None?
              && allowed
    ensures r.0.Reply? && r.0.error.None? ==>
              && r.0.data == Some(NewUser(newId, user, crypto))
              && RowsOf(r.1.codes, newId) == [CodeRow(newId, user.email, generated, now + 300000)]
              && r.1.sessions == db.sessions + [newId]
    ensures r.0.Reply? && r.0.data.Some? ==> r.0.data.value.passwordHash == crypto.hash(user.password)
    ensures forall v :: v != newId ==> RowsOf(r.1.codes, v) == RowsOf(db.codes, v)
    ensures forall x :: x in r.1.codes ==> x in db.codes || x.code == generated
    ensures OneCodePerUser(db.codes) ==> OneCodePerUser(r.1.codes)
    ensures DistinctUsers(db.users) ==> DistinctUsers(r.1.users)
  {
    if !crypto.isEmail(user.email) then (Refuse(InvalidValues), db)
    else
      // The insert violates a unique constraint: the exception is caught.
      if FindUserById(db.users, newId).Some? || FindUserByEmail(db.users, user.email).Some? then
        (Refuse(FailedToCreateUser), db)
      else
        var row := NewUser(newId, user, crypto);
        var users' := db.users + [row];
        var (issued, codes') := GenerateEmailVerificationCode(db.codes, row.id, row.email, allowed, generated, now);
        if issued.error.Some? then (Refuse(FailedToCreateUser), db.(users := users'))
        else (Reply(Some(row), None), Db(users', codes', db.sessions + [row.id]))
  }

  /** Whether `logIn` lets `email` / `password` in. */
  predicate LogInAccepted(db: Db, crypto: Crypto, email: string, password: string) {
    && crypto.isEmail(email)
    && ServerPasswordOk(password)
    && FindUserByEmail(db.users, email).Some?
    && crypto.verify(db.users[FindUserByEmail(db.users, email).value].passwordHash, password)
  }

  /** `logIn`: check the email and password, look the user up, verify the hash, open a session. */
  function LogIn(db: Db, crypto: Crypto, email: string, password: string): (r: (Answer, Db))
    ensures r.1.users == db.users && r.1.codes == db.codes
    ensures r.0.Reply?
    ensures !crypto.isEmail(email) ==> r == (Refuse(InvalidEmail), db)
    ensures crypto.isEmail(email) && !ServerPasswordOk(password) ==> r == (Refuse(InvalidPassword), db)
    ensures r.0.error.None? <==> LogInAccepted(db, crypto, email, password)
    ensures !LogInAccepted(db, crypto, email, password) ==> r.1 == db && r.0.data.None?
    ensures LogInAccepted(db, crypto, email, password) ==>
              exists i :: 0 <= i < |db.users| && db.users[i].email == email
                && r.0.data == Some(db.users[i]) && r.1.sessions == db.sessions + [db.users[i].id]
    ensures crypto.isEmail(email) && ServerPasswordOk(password) && (forall i :: 0 <= i < |db.users| ==> db.users[i].email != email) ==>
              r.0.error == Some(UserNotFound)
    ensures crypto.isEmail(email) && ServerPasswordOk(password) && FindUserByEmail(db.users, email).Some?
            && !crypto.verify(db.users[FindUserByEmail(db.users, email).value].passwordHash, password) ==>
              r.0.error == Some(InvalidPassword)
  {
    if !crypto.isEmail(email) then (Refuse(InvalidEmail), db)
    else if !ServerPasswordOk(password) then (Refuse(InvalidPassword), db)
    else match FindUserByEmail(db.users, email)
      case None => (Refuse(UserNotFound), db)
      case Some(i) =>
        var user := db.users[i];
        if !crypto.verify(user.passwordHash, password) then (Refuse(InvalidPassword), db)
        else (Reply(Some(user), None), db.(sessions := db.sessions + [user.id]))
  }

  /** `verifyEmailCode` over the whole database: only the session user's code row can change. */
  function VerifyCode(db: Db, session: Option<SessionUser>, code: string, now: int): (r: (bool, Db))
    ensures r.0 <==> Accepts(db.codes, session, code, now)
    ensures r.1.users == db.users && r.1.sessions == db.sessions
    ensures session.None? || !CodeFormatOk(code) ==> r == (false, db)
    ensures !Matches(db.codes, session, code) ==> r.1 == db
    ensures Matches(db.codes, session, code) && OneCodePerUser(db.codes) ==> RowsOf(r.1.codes, session.value.id) == []
    ensures session.Some? ==> forall v :: v != session.value.id ==> RowsOf(r.1.codes, v) == RowsOf(db.codes, v)
    ensures OneCodePerUser(db.codes) ==> OneCodePerUser(r.1.codes)
  {
    var (ok, codes') := VerifyEmailCode(db.codes, session, code, now);
    (ok, db.(codes := codes'))
  }

  /** `updatePassword`: note that it does not require a verified email. */
  function UpdatePassword(db: Db, crypto: Crypto, session: Option<SessionUser>, password: string): (r: (Answer, Db))
    ensures r.1.codes == db.codes && r.1.sessions == db.sessions
    ensures session.None? ==> r == (Refuse(InvalidSession), db)
    ensures session.Some? && !ServerPasswordOk(password) ==> r == (Refuse(InvalidPassword), db)
    ensures session.Some? && ServerPasswordOk(password) && FindUserById(db.users, session.value.id).None? ==> r == (Flag(false), db)
    ensures r.1 != db ==> session.Some? && ServerPasswordOk(password)
    ensures r.0 == Flag(true) <==> session.Some? && ServerPasswordOk(password) && FindUserById(db.users, session.value.id).Some?
    ensures r.0 == Flag(true) ==>
              var i := FindUserById(db.users, session.value.id).value;
              OnlyRowChanged(db.users, r.1.users, i) && SameButPassword(db.users[i], r.1.users[i])
              && r.1.users[i].passwordHash == crypto.hash(password)
    ensures r.0 != Flag(true) ==> r.1 == db
    ensures DistinctUsers(db.users) ==> DistinctUsers(r.1.users)
  {
    if session.None? then (Refuse(InvalidSession), db)
    else if !ServerPasswordOk(password) then (Refuse(InvalidPassword), db)
    else match FindUserById(db.users, session.value.id)
      // `update` finds no row and throws; the catch answers `false`.
      case None => (Flag(false), db)
      case Some(i) =>
        var row := db.users[i].(passwordHash := crypto.hash(password));
        (Flag(true), db.(users := db.users[i := row]))
  }

  /** `updateEmail`: requires a verified email; a taken address makes the update throw. */
  function UpdateEmail(db: Db, crypto: Crypto, session: Option<SessionUser>, email: string): (r: (Answer, Db))
    ensures r.1.codes == db.codes && r.1.sessions == db.sessions
    ensures session.None? ==> r == (Refuse(InvalidSession), db)
    ensures session.Some? && !session.value.emailVerified ==> r == (Refuse(EmailNotVerified), db)
    ensures r.1 != db ==> session.Some? && session.value.emailVerified && crypto.isEmail(email)
    ensures session.Some? && session.value.emailVerified && !crypto.isEmail(email) ==> r == (Refuse(InvalidEmail), db)
    ensures session.Some? && session.value.emailVerified && crypto.isEmail(email) && r.0 != Flag(true) ==> r == (Flag(false), db)
    ensures r.0 == Flag(true) <==>
              && session.Some? && session.value.emailVerified && crypto.isEmail(email)
              && FindUserById(db.users, session.value.id).Some?
              && !EmailTakenByOther(db.users, FindUserById(db.users, session.value.id).value, email)
    ensures r.0 == Flag(true) ==>
              var i := FindUserById(db.users, session.value.id).value;
              OnlyRowChanged(db.users, r.1.users, i) && SameButEmail(db.users[i], r.1.users[i])
              && r.1.users[i].email == email
    ensures r.0 != Flag(true) ==> r.1 == db
    ensures DistinctUsers(db.users) ==> DistinctUsers(r.1.users)
  {
    if session.None? then (Refuse(InvalidSession), db)
    else if !session.value.emailVerified then (Refuse(EmailNotVerified), db)
    else if !crypto.isEmail(email) then (Refuse(InvalidEmail), db)
    else match FindUserById(db.users, session.value.id)
      case None => (Flag(false), db)
      case Some(i) =>
        // The unique constraint on `email` makes the update throw; the catch answers `false`.
        if EmailTakenByOther(db.users, i, email) then (Flag(false), db)
        else
          var row := db.users[i].(email := email);
          (Flag(true), db.(users := db.users[i := row]))
  }

  /** `updateUsername`: requires a verified email and a name of 3 to 255 characters. */
  function UpdateUsername(db: Db, session: Option<SessionUser>, username: string): (r: (Answer, Db))
    ensures r.1.codes == db.codes && r.1.sessions == db.sessions
    ensures session.None? ==> r == (Refuse(InvalidSession), db)
    ensures session.Some? && !session.value.emailVerified ==> r == (Refuse(EmailNotVerified), db)
    ensures session.Some? && session.value.emailVerified && !ServerUsernameOk(username) ==> r == (Refuse(InvalidUsername), db)
    ensures (session.Some? && session.value.emailVerified && ServerUsernameOk(username) && FindUserById(db.users, session.value.id).None?) ==>
              r == (Flag(false), db)
    ensures r.0 == Flag(true) <==>
              session.Some? && session.value.emailVerified && ServerUsernameOk(username)
              && FindUserById(db.users, session.value.id).Some?
    ensures r.0 == Flag(true) ==>
              var i := FindUserById(db.users, session.value.id).value;
              OnlyRowChanged(db.users, r.1.users, i) && SameButUsername(db.users[i], r.1.users[i])
              && r.1.users[i].username == username
    ensures r.0 != Flag(true) ==> r.1 == db
    ensures DistinctUsers(db.users) ==> DistinctUsers(r.1.users)
  {
    if session.None? then (Refuse(InvalidSession), db)
    else if !session.value.emailVerified then (Refuse(EmailNotVerified), db)
    else if !ServerUsernameOk(username) then (Refuse(InvalidUsername), db)
    else match FindUserById(db.users, session.value.id)
      case None => (Flag(false), db)
      case Some(i) =>
        var row := db.users[i].(username := username);
        (Flag(true), db.(users := db.users[i := row]))
  }

  /** `deleteUser`: requires a verified email; a missing row makes the delete throw uncaught. */
  function DeleteUser(db: Db, session: Option<SessionUser>): (r: (Answer, Db))
    ensures r.1.codes == db.codes && r.1.sessions == db.sessions
    ensures session.None? ==> r == (Refuse(InvalidSession), db)
    ensures session.Some? && !session.value.emailVerified ==> r == (Refuse(EmailNotVerified), db)
    ensures r.1 != db ==> session.Some? && session.value.emailVerified
    ensures session.Some? && session.value.emailVerified && FindUserById(db.users, session.value.id).None? ==> r == (Escaped, db)
    ensures r.0.Deleted? <==> session.Some? && session.value.emailVerified && FindUserById(db.users, session.value.id).Some?
    ensures r.0.Deleted? ==>
              r.0.user.id == session.value.id && r.0.user in db.users
              && |r.1.users| == |db.users| - 1
              && multiset(r.1.users) + multiset{r.0.user} == multiset(db.users)
    ensures r.0.Deleted? && DistinctUsers(db.users) ==>
              DistinctUsers(r.1.users) && FindUserById(r.1.users, session.value.id).None?
    ensures !r.0.Deleted? ==> r.1 == db
  {
    if session.None? then (Refuse(InvalidSession), db)
    else if !session.value.emailVerified then (Refuse(EmailNotVerified), db)
    else match FindUserById(db.users, session.value.id)
      case None => (Escaped, db)
      case Some(i) =>
        RemoveUserRow(db.users, i);
        (Deleted(db.users[i]), db.(users := RemoveAt(db.users, i)))
  }

  /**
   `resendEmailVerificationCode`: issue a code, mail it, then delete the code
   row of the user, which is the row just issued.
   */
  function ResendEmailVerificationCode(db: Db, session: Option<SessionUser>,
                                       allowed: bool, generated: string, now: int): (r: (Answer, Db))
    requires IsGeneratedCode(generated)
    ensures r.1.users == db.users && r.1.sessions == db.sessions
    ensures session.None? ==> r == (Refuse(InvalidSession), db)
    ensures session.Some? && !allowed ==> r == (Refuse(TooManyRequests), db)
    ensures session.Some? && allowed ==> r.0 == Reply(None, None) && RowsOf(r.1.codes, session.value.id) == []
    ensures session.Some? ==> forall v :: v != session.value.id ==> RowsOf(r.1.codes, v) == RowsOf(db.codes, v)
    ensures OneCodePerUser(db.codes) ==> OneCodePerUser(r.1.codes)
    ensures forall x :: x in r.1.codes ==> x in db.codes || x.code == generated
  {
    if session.None? then (Refuse(InvalidSession), db)
    else
      var user := session.value;
      var (issued, codes') := GenerateEmailVerificationCode(db.codes, user.id, user.email, allowed, generated, now);
      if issued.error.Some? then (Refuse(issued.error.value), db)
      else match FindCode(codes', user.id)
        case None => (Refuse(RecordNotFound), db.(codes := codes'))
        case Some(k) =>
          RemoveIssuedRow(db.codes, codes', user.id, k);
          (Reply(None, None), db.(codes := RemoveAt(codes', k)))
  }

  /** `resendEmailVerificationCode` without the final delete: the mailed code stays on file. */
  function ResendKeepingCode(db: Db, session: Option<SessionUser>,
                             allowed: bool, generated: string, now: int): (r: (Answer, Db))
    requires IsGeneratedCode(generated)
    ensures r.1.users == db.users && r.1.sessions == db.sessions
    ensures session.None? ==> r == (Refuse(InvalidSession), db)
    ensures session.Some? && !allowed ==> r == (Refuse(TooManyRequests), db)
    ensures session.Some? && allowed ==>
              r.0 == Reply(None, None)
              && RowsOf(r.1.codes, session.value.id) == [CodeRow(session.value.id, session.value.email, generated, now + 300000)]
    ensures session.Some? ==> forall v :: v != session.value.id ==> RowsOf(r.1.codes, v) == RowsOf(db.codes, v)
  {
    if session.None? then (Refuse(InvalidSession), db)
    else
      var user := session.value;
      var (issued, codes') := GenerateEmailVerificationCode(db.codes, user.id, user.email, allowed, generated, now);
      if issued.error.Some? then (Refuse(issued.error.value), db)
      else (Reply(None, None), db.(codes := codes'))
  }

  /** Removing the single row a user has after issuance leaves the user with none. */
  lemma RemoveIssuedRow(before: seq<CodeRow>, after: seq<CodeRow>, u: UserId, k: nat)
    requires |RowsOf(after, u)| == 1
    requires forall v :: v != u ==> RowsOf(after, v) == RowsOf(before, v)
    requires FindCode(after, u) == Some(k)
    ensures RowsOf(RemoveAt(after, k), u) == []
    ensures forall v :: v != u ==> RowsOf(RemoveAt(after, k), v) == RowsOf(before, v)
    ensures OneCodePerUser(before) ==> OneCodePerUser(RemoveAt(after, k))
  {
    var rest := RemoveAt(after, k);
    assert RowsOf(rest, u) == [] by {
      RowsOfRemoveAt(after, k, u);
      SingletonRows(after[k], u);
    }
    forall v | v != u
      ensures RowsOf(rest, v) == RowsOf(before, v)
    {
      RowsOfRemoveAt(after, k, v);
      SingletonRows(after[k], v);
    }
    if OneCodePerUser(before) {
      forall v
        ensures |RowsOf(rest, v)| <= 1
      {
        if v != u {
          assert RowsOf(rest, v) == RowsOf(before, v);
        }
      }
    }
  }

}
