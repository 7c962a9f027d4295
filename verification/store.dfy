/**
 The persisted state the actions read and write: the user table, the
 email-verification-code table and the session table, each a sequence of rows
 in insertion order. Lookups return the first matching row, which is the only
 one whenever the table's unique constraint holds.
 */
module Store {
  import opened Wrappers

  type UserId = string

  /** A row of the user table. */
  datatype User = User(id: UserId, username: string, email: string, passwordHash: string, emailVerified: bool)

  /** A row of the email-verification-code table; `expiresAt` is in milliseconds. */
  datatype CodeRow = CodeRow(userId: UserId, email: string, code: string, expiresAt: int)

  /** The whole database: users, verification codes, and the user id of every issued session. */
  datatype Db = Db(users: seq<User>, codes: seq<CodeRow>, sessions: seq<UserId>)

  /** What the session library reports about the signed-in user. */
  datatype SessionUser = SessionUser(id: UserId, email: string, emailVerified: bool)

  /** The registration payload sent from the form to the server. */
  datatype ClientUser = ClientUser(username: string, email: string, password: string)

  /** Removes the element at index `k`, keeping the order of the rest. */
  function RemoveAt<T>(s: seq<T>, k: nat): (r: seq<T>)
    requires k < |s|
    ensures |r| == |s| - 1
    ensures forall i :: 0 <= i < k ==> r[i] == s[i]
    ensures forall i :: k <= i < |r| ==> r[i] == s[i + 1]
    ensures forall x :: x in r ==> x in s
  {
    s[..k] + s[k + 1..]
  }

  // ---------------------------------------------------------------------------
  // Verification-code table

  /** The code rows that belong to user `u`, in table order. */
  function RowsOf(codes: seq<CodeRow>, u: UserId): (r: seq<CodeRow>)
    ensures forall x :: x in r ==> x in codes && x.userId == u
    ensures forall x :: x in codes && x.userId == u ==> x in r
    ensures |r| <= |codes|
  {
    if |codes| == 0 then []
    else (if codes[0].userId == u then [codes[0]] else []) + RowsOf(codes[1..], u)
  }

  /** `deleteMany({ where: { userId: u } })`: every row of user `u` is dropped. */
  function WithoutUser(codes: seq<CodeRow>, u: UserId): (r: seq<CodeRow>)
    ensures forall x :: x in r ==> x in codes && x.userId != u
    ensures forall x :: x in codes && x.userId != u ==> x in r
    ensures |r| <= |codes|
  {
    if |codes| == 0 then []
    else (if codes[0].userId != u then [codes[0]] else []) + WithoutUser(codes[1..], u)
  }

  /** `findUnique({ where: { userId: u } })`: the index of the first row of `u`. */
  function FindCode(codes: seq<CodeRow>, u: UserId): (r: Option<nat>)
    ensures r.None? <==> RowsOf(codes, u) == []
    ensures r.Some? ==> r.value < |codes| && codes[r.value].userId == u && RowsOf(codes, u)[0] == codes[r.value]
  {
    if |codes| == 0 then None
    else if codes[0].userId == u then
      assert RowsOf(codes, u) == [codes[0]] + RowsOf(codes[1..], u);
      Some(0)
    else
      assert RowsOf(codes, u) == RowsOf(codes[1..], u);
      match FindCode(codes[1..], u)
      case None => None
      case Some(k) => Some(k + 1)
  }

  /** The unique constraint on the code table's `userId` column. */
  ghost predicate OneCodePerUser(codes: seq<CodeRow>) {
    forall u :: |RowsOf(codes, u)| <= 1
  }

  lemma {:induction false} RowsOfAppend(a: seq<CodeRow>, b: seq<CodeRow>, u: UserId)
    ensures RowsOf(a + b, u) == RowsOf(a, u) + RowsOf(b, u)
  {
    if |a| == 0 {
      assert a + b == b;
    } else {
      assert (a + b)[1..] == a[1..] + b;
      RowsOfAppend(a[1..], b, u);
    }
  }

  lemma SingletonRows(row: CodeRow, v: UserId)
    ensures RowsOf([row], v) == if row.userId == v then [row] else []
  {
    assert [row][1..] == [];
  }

  /** Removing row `k` removes exactly that row from its owner's rows. */
  lemma RowsOfRemoveAt(codes: seq<CodeRow>, k: nat, u: UserId)
    requires k < |codes|
    ensures RowsOf(codes, u) == RowsOf(codes[..k], u) + RowsOf([codes[k]], u) + RowsOf(codes[k + 1..], u)
    ensures RowsOf(RemoveAt(codes, k), u) == RowsOf(codes[..k], u) + RowsOf(codes[k + 1..], u)
  {
    assert codes == codes[..k] + [codes[k]] + codes[k + 1..];
    RowsOfAppend(codes[..k] + [codes[k]], codes[k + 1..], u);
    RowsOfAppend(codes[..k], [codes[k]], u);
    RowsOfAppend(codes[..k], codes[k + 1..], u);
  }

  /** After `deleteMany` for `u`, `u` has no rows and everybody else keeps theirs. */
  lemma {:induction false} WithoutUserRows(codes: seq<CodeRow>, u: UserId, v: UserId)
    ensures RowsOf(WithoutUser(codes, u), v) == if v == u then [] else RowsOf(codes, v)
  {
    if |codes| > 0 {
      WithoutUserRows(codes[1..], u, v);
      var head := if codes[0].userId != u then [codes[0]] else [];
      RowsOfAppend(head, WithoutUser(codes[1..], u), v);
    }
  }

  /** Removing the row that `FindCode` returned leaves its owner with no row, when rows are unique. */
  lemma RemoveFoundRow(codes: seq<CodeRow>, u: UserId, k: nat)
    requires OneCodePerUser(codes)
    requires FindCode(codes, u) == Some(k)
    ensures RowsOf(RemoveAt(codes, k), u) == []
    ensures forall v :: v != u ==> RowsOf(RemoveAt(codes, k), v) == RowsOf(codes, v)
    ensures OneCodePerUser(RemoveAt(codes, k))
  {
    RowsOfRemoveAt(codes, k, u);
    assert |RowsOf(codes, u)| <= 1;
    forall v
      ensures |RowsOf(RemoveAt(codes, k), v)| <= |RowsOf(codes, v)|
      ensures v != u ==> RowsOf(RemoveAt(codes, k), v) == RowsOf(codes, v)
    {
      RowsOfRemoveAt(codes, k, v);
    }
  }

  // ---------------------------------------------------------------------------
  // User table

  /** `findUnique({ where: { id } })` on the user table. */
  function FindUserById(users: seq<User>, id: UserId): (r: Option<nat>)
    ensures r.Some? ==> r.value < |users| && users[r.value].id == id
    ensures r.Some? ==> forall j :: 0 <= j < r.value ==> users[j].id != id
    ensures r.None? ==> forall j :: 0 <= j < |users| ==> users[j].id != id
  {
    if |users| == 0 then None
    else if users[0].id == id then Some(0)
    else match FindUserById(users[1..], id)
      case None => None
      case Some(k) => Some(k + 1)
  }

  /** `findUnique({ where: { email } })` on the user table. */
  function FindUserByEmail(users: seq<User>, email: string): (r: Option<nat>)
    ensures r.Some? ==> r.value < |users| && users[r.value].email == email
    ensures r.Some? ==> forall j :: 0 <= j < r.value ==> users[j].email != email
    ensures r.None? ==> forall j :: 0 <= j < |users| ==> users[j].email != email
  {
    if |users| == 0 then None
    else if users[0].email == email then Some(0)
    else match FindUserByEmail(users[1..], email)
      case None => None
      case Some(k) => Some(k + 1)
  }

  /** The unique constraints on the user table's `id` and `email` columns. */
  predicate DistinctUsers(users: seq<User>) {
    forall i, j :: 0 <= i < j < |users| ==> users[i].id != users[j].id && users[i].email != users[j].email
  }

  /** Deleting row `i` removes exactly that row and keeps the constraints. */
  lemma RemoveUserRow(users: seq<User>, i: nat)
    requires i < |users|
    ensures multiset(RemoveAt(users, i)) + multiset{users[i]} == multiset(users)
    ensures DistinctUsers(users) ==> DistinctUsers(RemoveAt(users, i))
    ensures DistinctUsers(users) ==> FindUserById(RemoveAt(users, i), users[i].id).None?
  {
    var rest := RemoveAt(users, i);
    assert users == users[..i] + [users[i]] + users[i + 1..];
    assert rest == users[..i] + users[i + 1..];
    if DistinctUsers(users) {
      forall j | 0 <= j < |rest|
        ensures rest[j].id != users[i].id
      {
        if j < i {
          assert rest[j] == users[j];
        } else {
          assert rest[j] == users[j + 1];
        }
      }
    }
  }

  /** The ids of the users whose email is marked verified. */
  ghost function VerifiedIds(users: seq<User>): set<UserId> {
    set i | 0 <= i < |users| && users[i].emailVerified :: users[i].id
  }
}
