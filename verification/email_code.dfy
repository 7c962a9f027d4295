/**
 Issuing and checking email-verification codes. Issuing is gated by a rate
 limiter, replaces every earlier code of the user and stores a generated
 eight-digit code that stays valid for five minutes.
 */
module EmailCode {
  import opened Wrappers
  import opened Store

  const CodeLength: nat := 8
  /** `new TimeSpan(5, "m")` in milliseconds. */
  const CodeLifetimeMs: int := 5 * 60 * 1000
  const TooManyRequests: string := "Too many requests"

  /** The `{ data, error }` object returned by issuance. */
  datatype CodeReply = CodeReply(data: Option<string>, error: Option<string>)

  predicate IsDigit(c: char) {
    '0' <= c <= '9'
  }

  /** What the random generator can return: eight characters drawn from 0-9. */
  predicate IsGeneratedCode(s: string) {
    |s| == CodeLength && forall i :: 0 <= i < |s| ==> IsDigit(s[i])
  }

  /** The regular expression `^[0-9]+$`: one or more decimal digits and nothing else. */
  predicate MatchesDigitPattern(s: string) {
    |s| >= 1 && forall i :: 0 <= i < |s| ==> IsDigit(s[i])
  }

  /** The schema `z.string().length(8).regex(/^[0-9]+$/)` that a submitted code must pass. */
  predicate CodeFormatOk(s: string) {
    |s| == CodeLength && MatchesDigitPattern(s)
  }

  /**
   The character-by-character form of `CodeFormatOk`, the submitted-code
   schema; it decides the same strings, and also exactly the strings the
   generator can produce.
   */
  method CheckCodeFormat(s: string) returns (ok: bool)
    ensures ok <==> IsGeneratedCode(s)
    ensures ok <==> CodeFormatOk(s)
  {
    if |s| != CodeLength {
      return false;
    }
    var i := 0;
    while i < |s|
      invariant 0 <= i <= |s|
      invariant forall j :: 0 <= j < i ==> IsDigit(s[j])
    {
      if !IsDigit(s[i]) {
        return false;
      }
      i := i + 1;
    }
    return true;
  }

  /** `createDate(new TimeSpan(5, "m"))` evaluated at time `now`. */
  function ExpiryFrom(now: int): (t: int)
    ensures t - now == 300000
  {
    now + CodeLifetimeMs
  }

  /** `isWithinExpirationDate(expiresAt)` evaluated at time `now`. */
  predicate WithinExpiration(expiresAt: int, now: int) {
    now < expiresAt
  }

  /**
   Issues a code for `userId`. `allowed` is the rate limiter's verdict for the
   requester's address, `generated` the random generator's output and `now` the
   clock; the result is the reply and the new code table.
   */
  function GenerateEmailVerificationCode(codes: seq<CodeRow>, userId: UserId, email: string,
                                         allowed: bool, generated: string, now: int): (r: (CodeReply, seq<CodeRow>))
    requires IsGeneratedCode(generated)
    ensures !allowed ==> r.0 == CodeReply(None, Some(TooManyRequests)) && r.1 == codes
    ensures allowed ==> r.0.error.None? && r.0.data == Some(generated)
    ensures allowed ==> RowsOf(r.1, userId) == [CodeRow(userId, email, generated, now + 300000)]
    ensures forall v :: v != userId ==> RowsOf(r.1, v) == RowsOf(codes, v)
    ensures OneCodePerUser(codes) ==> OneCodePerUser(r.1)
    ensures r.0.data.Some? ==> CodeFormatOk(r.0.data.value)
    ensures forall x :: x in r.1 ==> x in codes || x.code == generated
  {
    if !allowed then (CodeReply(None, Some(TooManyRequests)), codes)
    else
      var row := CodeRow(userId, email, generated, ExpiryFrom(now));
      var codes' := WithoutUser(codes, userId) + [row];
      IssueRows(codes, userId, row);
      (CodeReply(Some(generated), None), codes')
  }

  /** Row accounting for delete-all-then-create. */
  lemma IssueRows(codes: seq<CodeRow>, u: UserId, row: CodeRow)
    requires row.userId == u
    ensures RowsOf(WithoutUser(codes, u) + [row], u) == [row]
    ensures forall v :: v != u ==> RowsOf(WithoutUser(codes, u) + [row], v) == RowsOf(codes, v)
    ensures OneCodePerUser(codes) ==> OneCodePerUser(WithoutUser(codes, u) + [row])
  {
    forall v
      ensures RowsOf(WithoutUser(codes, u) + [row], v) == if v == u then [row] else RowsOf(codes, v)
    {
      RowsOfAppend(WithoutUser(codes, u), [row], v);
      WithoutUserRows(codes, u, v);
      assert [row][1..] == [];
    }
  }

  /**
   Whether a submitted code is accepted: a session exists, the code has the
   right format, the user has a stored code, it equals the submitted one, it
   has not expired, and it was issued for the session user's current email.
   */
  ghost predicate Accepts(codes: seq<CodeRow>, session: Option<SessionUser>, code: string, now: int) {
    && session.Some?
    && CodeFormatOk(code)
    && RowsOf(codes, session.value.id) != []
    && RowsOf(codes, session.value.id)[0].code == code
    && now < RowsOf(codes, session.value.id)[0].expiresAt
    && RowsOf(codes, session.value.id)[0].email == session.value.email
  }

  /** Whether the submitted code reaches the delete: everything but expiry and email. */
  ghost predicate Matches(codes: seq<CodeRow>, session: Option<SessionUser>, code: string) {
    && session.Some?
    && CodeFormatOk(code)
    && RowsOf(codes, session.value.id) != []
    && RowsOf(codes, session.value.id)[0].code == code
  }

  /**
   `verifyEmailCode`: the answer and the new code table. A matching code is
   consumed before its expiry and email are looked at.
   */
  function VerifyEmailCode(codes: seq<CodeRow>, session: Option<SessionUser>, code: string, now: int): (r: (bool, seq<CodeRow>))
    ensures r.0 <==> Accepts(codes, session, code, now)
    ensures !Matches(codes, session, code) ==> r.1 == codes
    ensures Matches(codes, session, code) ==> |r.1| == |codes| - 1
    ensures Matches(codes, session, code) && OneCodePerUser(codes) ==>
              RowsOf(r.1, session.value.id) == [] && OneCodePerUser(r.1)
    ensures session.Some? ==> forall v :: v != session.value.id ==> RowsOf(r.1, v) == RowsOf(codes, v)
    ensures forall x :: x in r.1 ==> x in codes
  {
    if session.None? then (false, codes)
    else if !CodeFormatOk(code) then (false, codes)
    else
      var user := session.value;
      match FindCode(codes, user.id)
      case None => (false, codes)
      case Some(k) =>
        if codes[k].code != code then (false, codes)
        else
          var codes' := RemoveAt(codes, k);
          ConsumeRows(codes, user.id, k);
          if !WithinExpiration(codes[k].expiresAt, now) || codes[k].email != user.email then (false, codes')
          else (true, codes')
  }

  /** Row accounting for consuming the row `FindCode` returned. */
  lemma ConsumeRows(codes: seq<CodeRow>, u: UserId, k: nat)
    requires FindCode(codes, u) == Some(k)
    ensures forall v :: v != u ==> RowsOf(RemoveAt(codes, k), v) == RowsOf(codes, v)
    ensures OneCodePerUser(codes) ==> RowsOf(RemoveAt(codes, k), u) == [] && OneCodePerUser(RemoveAt(codes, k))
  {
    forall v | v != u
      ensures RowsOf(RemoveAt(codes, k), v) == RowsOf(codes, v)
    {
      RowsOfRemoveAt(codes, k, v);
      SingletonRows(codes[k], v);
    }
    if OneCodePerUser(codes) {
      RemoveFoundRow(codes, u, k);
    }
  }
}
