/**
 How the actions compose: a code issued and then submitted, a code submitted
 twice, a resend followed by a submission, and invariants that hold over any
 sequence of requests.
 */
module Lifecycle {
  import opened Wrappers
  import opened Store
  import opened EmailCode
  import opened UserAction

  // ---------------------------------------------------------------------------
  // Issue, then verify

  /**
   A code just issued is accepted, for the user it was issued to and with the
   same email, exactly while it is younger than five minutes; either way the
   first submission consumes it.
   */
  lemma IssueThenVerify(codes: seq<CodeRow>, u: UserId, email: string, verified: bool,
                        generated: string, issuedAt: int, now: int)
    requires OneCodePerUser(codes)
    requires IsGeneratedCode(generated)
    ensures var issued := GenerateEmailVerificationCode(codes, u, email, true, generated, issuedAt).1;
            var checked := VerifyEmailCode(issued, Some(SessionUser(u, email, verified)), generated, now);
            && (checked.0 <==> now < issuedAt + 300000)
            && RowsOf(checked.1, u) == []
  {
  }

  /** Every code the generator can produce passes the submitted-code schema, and conversely. */
  lemma CheckFormatAgrees(s: string)
    ensures IsGeneratedCode(s) <==> CodeFormatOk(s)
  {
  }

  /** A wrong code is refused and the issued code stays on file. */
  lemma WrongCodeKeepsIssued(codes: seq<CodeRow>, u: UserId, email: string, verified: bool,
                             generated: string, issuedAt: int, submitted: string, now: int)
    requires IsGeneratedCode(generated)
    requires submitted != generated
    ensures var issued := GenerateEmailVerificationCode(codes, u, email, true, generated, issuedAt).1;
            VerifyEmailCode(issued, Some(SessionUser(u, email, verified)), submitted, now) == (false, issued)
  {
  }

  /** A code that reaches the delete is gone afterwards: no second submission is accepted. */
  lemma CodeIsSingleUse(codes: seq<CodeRow>, session: Option<SessionUser>, code: string, now: int,
                        again: string, later: int)
    requires OneCodePerUser(codes)
    requires Matches(codes, session, code)
    ensures var after := VerifyEmailCode(codes, session, code, now).1;
            VerifyEmailCode(after, session, again, later) == (false, after)
  {
  }

  /** An expired but matching code is refused and still deleted. */
  lemma ExpiredCodeIsConsumed(codes: seq<CodeRow>, session: Option<SessionUser>, code: string, now: int)
    requires OneCodePerUser(codes)
    requires Matches(codes, session, code)
    requires now >= RowsOf(codes, session.value.id)[0].expiresAt
    ensures var r := VerifyEmailCode(codes, session, code, now);
            !r.0 && RowsOf(r.1, session.value.id) == [] && |r.1| == |codes| - 1
  {
  }

  /** A code issued for another address is refused after a match, and consumed. */
  lemma StaleEmailIsConsumed(codes: seq<CodeRow>, session: Option<SessionUser>, code: string, now: int)
    requires OneCodePerUser(codes)
    requires Matches(codes, session, code)
    requires RowsOf(codes, session.value.id)[0].email != session.value.email
    ensures var r := VerifyEmailCode(codes, session, code, now);
            !r.0 && RowsOf(r.1, session.value.id) == []
  {
  }

  // ---------------------------------------------------------------------------
  // Resend

  /** As written, after a successful resend no code of the user is accepted, the mailed one included. */
  lemma ResendLeavesNothingToVerify(db: Db, user: SessionUser, generated: string, issuedAt: int,
                                    submitted: string, now: int)
    requires IsGeneratedCode(generated)
    ensures var resent := ResendEmailVerificationCode(db, Some(user), true, generated, issuedAt);
            resent.0 == Reply(None, None)
            && !VerifyCode(resent.1, Some(user), submitted, now).0
  {
  }

  /** Keeping the issued row, the mailed code is accepted within five minutes. */
  lemma ResendKeepingCodeVerifies(db: Db, user: SessionUser, generated: string, issuedAt: int, now: int)
    requires IsGeneratedCode(generated)
    requires now < issuedAt + 300000
    ensures var resent := ResendKeepingCode(db, Some(user), true, generated, issuedAt);
            resent.0 == Reply(None, None)
            && VerifyCode(resent.1, Some(user), generated, now).0
  {
  }

  // ---------------------------------------------------------------------------
  // Sequences of requests

  datatype Request =
    | Register(user: ClientUser, newId: UserId, allowed: bool, generated: string)
    | SignIn(email: string, password: string)
    | SubmitCode(session: Option<SessionUser>, code: string)
    | ResendCode(session: Option<SessionUser>, allowed: bool, generated: string)
    | ChangePassword(session: Option<SessionUser>, password: string)
    | ChangeEmail(session: Option<SessionUser>, email: string)
    | ChangeUsername(session: Option<SessionUser>, username: string)
    | RemoveAccount(session: Option<SessionUser>)

  /** A request and the clock reading when it is served. */
  datatype Timed = Timed(request: Request, now: int)

  /** Codes in requests come from the generator. */
  predicate WellGenerated(r: Request) {
    match r
    case Register(_, _, _, g) => IsGeneratedCode(g)
    case ResendCode(_, _, g) => IsGeneratedCode(g)
    case _ => true
  }

  /** Serves one request. */
  function Apply(db: Db, crypto: Crypto, t: Timed): Db
    requires WellGenerated(t.request)
  {
    match t.request
    case Register(user, newId, allowed, g) => CreateUser(db, crypto, user, newId, allowed, g, t.now).1
    case SignIn(email, password) => LogIn(db, crypto, email, password).1
    case SubmitCode(session, code) => VerifyCode(db, session, code, t.now).1
    case ResendCode(session, allowed, g) => ResendEmailVerificationCode(db, session, allowed, g, t.now).1
    case ChangePassword(session, password) => UpdatePassword(db, crypto, session, password).1
    case ChangeEmail(session, email) => UpdateEmail(db, crypto, session, email).1
    case ChangeUsername(session, username) => UpdateUsername(db, session, username).1
    case RemoveAccount(session) => DeleteUser(db, session).1
  }

  /** Serves the requests one after another. */
  function Run(db: Db, crypto: Crypto, ts: seq<Timed>): Db
    requires forall k :: 0 <= k < |ts| ==> WellGenerated(ts[k].request)
    decreases |ts|
  {
    if |ts| == 0 then db else Run(Apply(db, crypto, ts[0]), crypto, ts[1..])
  }

  /** Every stored code is eight decimal digits. */
  ghost predicate CodesGenerated(codes: seq<CodeRow>) {
    forall x :: x in codes ==> IsGeneratedCode(x.code)
  }

  /** The table constraints and the shape of stored codes. */
  ghost predicate Inv(db: Db) {
    OneCodePerUser(db.codes) && CodesGenerated(db.codes) && DistinctUsers(db.users)
  }

  lemma ApplyPreservesInv(db: Db, crypto: Crypto, t: Timed)
    requires Inv(db)
    requires WellGenerated(t.request)
    ensures Inv(Apply(db, crypto, t))
  {
  }

  lemma {:induction false} RunPreservesInv(db: Db, crypto: Crypto, ts: seq<Timed>)
    requires Inv(db)
    requires forall k :: 0 <= k < |ts| ==> WellGenerated(ts[k].request)
    ensures Inv(Run(db, crypto, ts))
    decreases |ts|
  {
    if |ts| > 0 {
      ApplyPreservesInv(db, crypto, ts[0]);
      RunPreservesInv(Apply(db, crypto, ts[0]), crypto, ts[1..]);
    }
  }

  /** No request marks an email as verified: the set of verified users can only shrink. */
  lemma ApplyNeverVerifies(db: Db, crypto: Crypto, t: Timed)
    requires WellGenerated(t.request)
    ensures VerifiedIds(Apply(db, crypto, t).users) <= VerifiedIds(db.users)
  {
  }

  lemma {:induction false} RunNeverVerifies(db: Db, crypto: Crypto, ts: seq<Timed>)
    requires forall k :: 0 <= k < |ts| ==> WellGenerated(ts[k].request)
    ensures VerifiedIds(Run(db, crypto, ts).users) <= VerifiedIds(db.users)
    decreases |ts|
  {
    if |ts| > 0 {
      ApplyNeverVerifies(db, crypto, ts[0]);
      RunNeverVerifies(Apply(db, crypto, ts[0]), crypto, ts[1..]);
    }
  }

  /** The session the session library validates for user `u`, carrying the row's current attributes. */
  function SessionOf(users: seq<User>, u: UserId): (s: Option<SessionUser>)
    ensures s.Some? <==> FindUserById(users, u).Some?
    ensures s.Some? ==> s.value.id == u
    ensures s.Some? ==> s.value.email == users[FindUserById(users, u).value].email
                        && s.value.emailVerified == users[FindUserById(users, u).value].emailVerified
  {
    match FindUserById(users, u)
    case None => None
    case Some(i) => Some(SessionUser(u, users[i].email, users[i].emailVerified))
  }

  /**
   Hence an account that starts unverified stays locked out of changing its
   email or username and out of deleting itself, whatever requests come in
   between.
   */
  lemma UnverifiedStaysLocked(db: Db, crypto: Crypto, ts: seq<Timed>, u: UserId, email: string, username: string)
    requires forall k :: 0 <= k < |ts| ==> WellGenerated(ts[k].request)
    requires u !in VerifiedIds(db.users)
    ensures var after := Run(db, crypto, ts);
            && UpdateEmail(after, crypto, SessionOf(after.users, u), email).1 == after
            && UpdateUsername(after, SessionOf(after.users, u), username).1 == after
            && DeleteUser(after, SessionOf(after.users, u)).1 == after
  {
    RunNeverVerifies(db, crypto, ts);
  }
}
