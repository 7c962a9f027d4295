# template-auth: the verification-code lifecycle and the account actions

This project models the sequential logic of the template-auth web application
in Dafny. It covers:

- issuing email-verification codes, and checking and consuming them;
- the server actions that register, log in, verify, resend a code, and update or delete an account;
- the registration/login form's schema and submit decision;
- the password-strength bar;
- choosing the client address from proxy headers.

The database is three tables, each held as a sequence of rows:

- users;
- verification codes, keyed by user through a unique constraint;
- sessions, recorded as the user id each session was opened for.

Each action is a pure function. It takes the database, the session, the input and the oracle values, and returns the action's answer together with the new database. Several things become parameters:

- the rate limiter's verdict: `allowed`;
- the random code: `generated`, which may be any eight characters over 0-9;
- the clock: `now`, in milliseconds;
- Argon2id hashing and verification and the schema's email check: uninterpreted functions in `Crypto`.

Module layout:

- `Store` (store.dfy): the rows, table lookups and row accounting.
- `EmailCode` (email_code.dfy): `generateEmailVerificationCode`, and `verifyEmailCode` over the code table.
- `UserAction` (user_action.dfy): the server actions.
- `AuthForm` (auth_form.dfy): the form schema and the submit handler.
- `StrengthMeter` (strength_meter.dfy): the password-strength bar.
- `ServerUtils` (server_utils.dfy): `getIpAddress`.
- `Lifecycle` (lifecycle.dfy): how actions compose, and invariants over any sequence of requests.

Behaviour of the code that the model reproduces and proves:

- A matching code is deleted before its expiry and its email are checked. An expired or stale code is consumed and still refused.
- A successful resend deletes the code it has just mailed. Afterwards no code of that user is accepted.
- No action ever sets `emailVerified`: `verifyEmailCode` answers `true` but writes nothing to the user row. So an account that starts unverified can never change its email or username, or delete itself.
- A registration that the rate limiter refuses still leaves the new user row in place. It only skips the code and the session.
- `logIn` answers "User not found" for an unknown email and "Invalid password" for a wrong password, so it does reveal which check failed.
- `createUser` applies no length bounds to the password; only the client form limits it to 8..50.
- The `confirmPassword` refinement compares the value with itself, so the schema accepts two different passwords. `onSubmit` is what stops the registration.

## Model

| member | source | states |
|---|---|---|
| `Store.WithoutUser` | src/lib/emailCode.ts:24-28 | `deleteMany` for a user keeps exactly the rows of other users: every kept row is an old row of another user, and every old row of another user is kept |
| `Store.WithoutUserRows` | src/lib/emailCode.ts:24-28 | after `deleteMany` for `u`, `u` has no rows and every other user's rows are unchanged, in order |
| `Store.FindCode` | src/lib/actions/user.action.ts:151-155 | the lookup by `userId` finds nothing exactly when the user has no row; otherwise it returns that user's first row |
| `Store.FindUserByEmail` | src/lib/actions/user.action.ts:97-101 | the lookup by email returns the first row with that email, or nothing when no row has it |
| `Store.FindUserById` | src/lib/actions/user.action.ts:212-219 | the lookup by id returns the first row with that id, or nothing when no row has it |
| `Store.RemoveUserRow` | src/lib/actions/user.action.ts:316-320 | deleting a user row removes exactly that row, keeps id and email uniqueness, and leaves no row with the deleted id |
| `Store.RemoveFoundRow` | src/lib/actions/user.action.ts:161-165 | under the one-code-per-user constraint, deleting the found row leaves its owner with no code and keeps the constraint |
| `EmailCode.CheckCodeFormat` | src/lib/actions/user.action.ts:141-148 | the submitted-code schema (length 8, then `^[0-9]+$`) accepts a string iff it is exactly eight decimal digits, i.e. iff the generator could have produced it |
| `EmailCode.GenerateEmailVerificationCode` | src/lib/emailCode.ts:11-41 | a refused rate limit gives `{null, "Too many requests"}` with the table unchanged; otherwise the reply carries the code and no error, and the user then has exactly one row: this user id and email, the returned code, expiry now + 5 min; other users' rows are untouched; the returned code passes the submit schema |
| `EmailCode.IssueRows` | src/lib/emailCode.ts:24-38 | delete-all-then-create leaves the user with exactly the new row, whatever it had before, and preserves one-code-per-user |
| `EmailCode.VerifyEmailCode` | src/lib/actions/user.action.ts:131-179 | answers true iff: a session exists, the code has the format, the user has a row, the row's code equals the input, it has not expired, and its email is the session user's; without a session, with a bad format, with no row or with a different code, nothing changes; on a match one row is deleted whatever the expiry and email checks then say, leaving the user with no code |
| `EmailCode.ConsumeRows` | src/lib/actions/user.action.ts:161-165 | deleting the matched row leaves every other user's rows as they were |
| `UserAction.CreateUser` | src/lib/actions/user.action.ts:20-81 | an invalid email gives "Invalid values" and nothing changes; a well-formed email that is taken, or a taken id, answers "Failed to create user" with nothing changed; it succeeds iff the email is valid and new, the id is new and the limiter allows; success returns the inserted row (hashed password, unverified), gives the user exactly the issued code and opens one session; when the limiter refuses, the answer is "Failed to create user" and the database is exactly the old one plus the new user row: no code, no session |
| `UserAction.LogIn` | src/lib/actions/user.action.ts:83-129 | a malformed email answers "Invalid email" and a password outside 8..255 "Invalid password", with nothing changed; it opens a session iff the email is valid, the password is 8..255, a user has that email and the hash verifies; any failure changes nothing; an unknown email answers "User not found" and a wrong password "Invalid password"; users and codes never change |
| `UserAction.VerifyCode` | src/lib/actions/user.action.ts:131-179 | `verifyEmailCode` over the whole database: the same acceptance condition; users and sessions never change, and only the session user's code row can change: every other user's code rows stay as they were, one code per user is kept, and a match leaves the user no code |
| `UserAction.UpdatePassword` | src/lib/actions/user.action.ts:196-225 | refuses with no session ("Invalid session") or a password outside 8..255 ("Invalid password"), and changes nothing; a missing user row answers `false` with nothing changed; answers `true` iff those pass and the user row exists; then only that row's hash changes; it does not require a verified email |
| `UserAction.UpdateEmail` | src/lib/actions/user.action.ts:227-262 | without a session or without a verified email it refuses and changes nothing; a malformed email answers "Invalid email" with nothing changed; a missing row or an address taken by another user answers `false` with nothing changed; answers `true` iff the email is valid, the row exists and no other user has the address; then only that row's email changes and emails stay unique |
| `UserAction.UpdateUsername` | src/lib/actions/user.action.ts:264-299 | refuses without a session, without a verified email, or with a name outside 3..255, and changes nothing; a missing row answers `false`; answers `true` iff the row exists; then only that row's username changes |
| `UserAction.DeleteUser` | src/lib/actions/user.action.ts:301-321 | refuses without a session or a verified email and changes nothing; a missing row makes the delete throw uncaught, with nothing changed; deletes iff the row exists; it returns the deleted row, removes exactly it, and no row with that id remains |
| `UserAction.ResendEmailVerificationCode` | src/lib/actions/user.action.ts:323-358 | refuses without a session or when the limiter refuses, and changes nothing; on success it answers `{null, null}` and the user ends with no code row, while other users' rows are untouched |
| `UserAction.ResendKeepingCode` | src/lib/actions/user.action.ts:323-345 | without the final delete, the user ends with exactly the issued code, which expires in 5 minutes |
| `UserAction.RemoveIssuedRow` | src/lib/actions/user.action.ts:347-354 | deleting the user's row right after issuance leaves the user with none and other users as before |
| `AuthForm.ParseForm` | src/components/shared/Auth/AuthAction.tsx:15-44 | the schema accepts iff all four fields are present, the username is 3..50, the email is valid, and the password and confirmation are each 8..50; the parsed data are the field values |
| `AuthForm.ConfirmIgnoresPassword` | src/components/shared/Auth/AuthAction.tsx:25-43 | the confirmation field is valid iff its length is 8..50, whatever the password is |
| `AuthForm.SchemaAcceptsMismatch` | src/components/shared/Auth/AuthAction.tsx:25-43 | two different passwords pass the schema and are stopped only by the handler |
| `AuthForm.MismatchNeverRegisters` | src/components/shared/Auth/AuthAction.tsx:84-92 | for every form the schema accepts, differing password and confirmation end in the mismatch toast and never reach `createUser` |
| `AuthForm.OnSubmit` | src/components/shared/Auth/AuthAction.tsx:67-115 | login calls `logIn` with just the email and password; registration calls `createUser` iff the passwords agree, with exactly the email, username and password (no confirmation) |
| `AuthForm.HandleSubmit` | src/components/shared/Auth/AuthAction.tsx:121 | the handler runs iff the schema accepts; an accepted login form calls `logIn` with exactly its email and password; an accepted registration form with agreeing passwords calls `createUser` with exactly its username, email and password; a registration that reaches `createUser` has bounded fields and agreeing passwords |
| `AuthForm.LoginFormNeverSubmits` | src/components/shared/Auth/AuthAction.tsx:47-60 | a login form holds no username or confirmation, so the registration schema rejects it for every email and password |
| `AuthForm.ParseLoginForm` | src/components/shared/Auth/AuthAction.tsx:20-24 | the login schema is formSchema's email/password projection: whenever formSchema accepts, the login schema accepts with the same email and password, and when username and confirmation are valid the two schemas accept the same forms |
| `AuthForm.HandleLoginSubmit` | src/components/shared/Auth/AuthAction.tsx:71-72 | the corrected handler only ever calls `logIn`, and it agrees with the as-written handler on every form that formSchema accepts or whose username and confirmation are valid |
| `AuthForm.LoginFormSubmits` | src/components/shared/Auth/AuthAction.tsx:71-72 | a valid login form reaches `logIn` with its email and password |
| `StrengthMeter.StrengthColor` | src/components/shared/Auth/PasswordStrengthMeter.tsx:8-23 | the colour is always one of the five classes, and it is the grey fallback exactly for scores outside 0..4 |
| `StrengthMeter.Progress` | src/components/shared/Auth/PasswordStrengthMeter.tsx:26 | the fill lies in 0..100 for scores 0..4, and it is a multiple of 25 from which the score can be read back |
| `StrengthMeter.ColorMatchesFill` | src/components/shared/Auth/PasswordStrengthMeter.tsx:8-26 | for every score the colour is the one the fill level implies: red below 50, orange, yellow, green at 100, grey outside 0..100 |
| `StrengthMeter.ProgressStrictlyIncreasing` | src/components/shared/Auth/PasswordStrengthMeter.tsx:26 | a higher score always fills more |
| `StrengthMeter.EstimatorScoresAreColoured` | src/components/shared/Auth/PasswordStrengthMeter.tsx:10-21 | scores 0..4 never fall back to grey, and only score 4 fills the bar and turns it green |
| `ServerUtils.GetIpAddress` | src/lib/serverUtils.ts:3-11 | a non-empty `x-forwarded-for` is returned verbatim; otherwise `x-real-ip` when present (even if empty), else "0.0.0.0" |
| `ServerUtils.FirstHop` | src/lib/serverUtils.ts:8 | `split(",")[0]` is the longest comma-free prefix, stopped by a comma or by the end |
| `ServerUtils.FirstHopOfList` | src/lib/serverUtils.ts:8 | the first hop of `a,b` is `a` when `a` has no comma |
| `ServerUtils.GetIpAddressFirstHop` | src/lib/serverUtils.ts:5-8 | keeping the split, a forwarded-for value yields its first hop, which has no comma; the other branches are unchanged |
| `ServerUtils.EmptyRealIpKept` | src/lib/serverUtils.ts:7 | a present but empty `x-real-ip` is returned as "", not replaced by the fallback |
| `ServerUtils.ForwardedChainReturnedWhole` | src/lib/serverUtils.ts:5-10 | for any chain `client,proxies`, the function returns the whole chain, while the first-hop version returns `client` |
| `Lifecycle.IssueThenVerify` | src/lib/actions/user.action.ts:150-174 | a freshly issued code, submitted by its user with the same email, is accepted iff submitted within 5 minutes of issue; either way it is consumed |
| `Lifecycle.CheckFormatAgrees` | src/lib/emailCode.ts:29 | the generator's alphabet and length and the submit schema describe the same strings |
| `Lifecycle.WrongCodeKeepsIssued` | src/lib/actions/user.action.ts:157-159 | a wrong code is refused and the issued code stays on file |
| `Lifecycle.CodeIsSingleUse` | src/lib/actions/user.action.ts:161-165 | once a code reached the delete, every later submission by that user is refused and changes nothing |
| `Lifecycle.ExpiredCodeIsConsumed` | src/lib/actions/user.action.ts:161-172 | a matching but expired code is refused and still deleted |
| `Lifecycle.StaleEmailIsConsumed` | src/lib/actions/user.action.ts:161-172 | a matching code issued for a different email is refused and still deleted |
| `Lifecycle.ResendLeavesNothingToVerify` | src/lib/actions/user.action.ts:323-358 | after a successful resend, no code (the mailed one included) is accepted for that user |
| `Lifecycle.ResendKeepingCodeVerifies` | src/lib/actions/user.action.ts:331-345 | without the final delete, the mailed code is accepted within 5 minutes |
| `Lifecycle.ApplyPreservesInv` | src/lib/emailCode.ts:24-38 | every action keeps one code per user, all codes eight digits, and user ids and emails unique |
| `Lifecycle.RunPreservesInv` | src/lib/actions/user.action.ts:20-358 | the same table invariants hold after any sequence of requests |
| `Lifecycle.ApplyNeverVerifies` | src/lib/actions/user.action.ts:161-174 | no action adds a user to the set of verified users; `verifyEmailCode` never writes `emailVerified` |
| `Lifecycle.RunNeverVerifies` | src/lib/actions/user.action.ts:161-174 | the set of verified users can only shrink over any sequence of requests |
| `Lifecycle.SessionOf` | src/lib/auth.ts:17-23 | a session exists iff the user row exists, and it carries that row's id, email and verified flag |
| `Lifecycle.UnverifiedStaysLocked` | src/lib/actions/user.action.ts:235-241 | a user unverified at the start still cannot change email or username, or delete the account, after any sequence of requests |

## Findings

| source | as written | input that shows it | evidently intended | confidence | as-written member | corrected member |
|---|---|---|---|---|---|---|
| src/lib/serverUtils.ts:8 | `ip.split(",")[0]` is evaluated and its value dropped, so the whole header is returned | `x-forwarded-for: 203.0.113.7, 10.0.0.1` returns `203.0.113.7, 10.0.0.1` | `ip = ip.split(",")[0]`, giving `203.0.113.7` | high; not executed | `ServerUtils.GetIpAddress`, `ServerUtils.ForwardedChainReturnedWhole` | `ServerUtils.GetIpAddressFirstHop` |
| src/lib/actions/user.action.ts:347-352 | after mailing the new code, the action deletes that user's code row, which is the code just mailed | any successful resend; submitting the mailed code afterwards answers `false` | keep the issued row so that the mailed code verifies | high that the mailed code cannot verify; medium on intent; not executed | `UserAction.ResendEmailVerificationCode`, `Lifecycle.ResendLeavesNothingToVerify` | `UserAction.ResendKeepingCode`, `Lifecycle.ResendKeepingCodeVerifies` |
| src/components/shared/Auth/AuthAction.tsx:47-60 | the login form is validated with the registration schema, which requires `username` and `confirmPassword`; the login form never renders them | a login form with email `a@b.co` and password `password1` never reaches `logIn` | validate the login form against email and password only | medium: relies on the form library passing never-rendered fields to the schema as undefined; not executed | `AuthForm.HandleSubmit`, `AuthForm.LoginFormNeverSubmits` | `AuthForm.HandleLoginSubmit`, `AuthForm.LoginFormSubmits` |

The request-sequence model in `Lifecycle` uses the actions as written, the resend included. The corrected members stand beside them with their own proofs.

## Left out

- The rate limiter (src/lib/RateLimiter.ts: two issuances per address per 300 s, in process memory) is not modelled. Its window logic belongs to an external library. Each issuance takes the limiter's verdict as the boolean `allowed`, and the client address therefore never flows into the model.
- Argon2id hashing and verification, the schema library's email pattern, the random string generator and the clock are external. They are uninterpreted functions (`Crypto`) or parameters (`generated`, `now`).
- Session issuance, cookies and validation are owned by the session library. `validateRequest`, `getUserFromSessionCookie` and src/lib/auth.ts are not part of this model beyond `SessionOf`. A session is an optional `SessionUser` input, and opening one appends the user id to the session table. The library returns the user and the session together, so the actions' separate `!userLucia.user` checks fold into the session check.
- Sending mail (src/lib/SendMail.ts, src/lib/actions/mail.action.ts) has no effect on the modelled state. The contact-form cipher is not modelled.
- Rendering, toasts, routing and the UI-only components are not modelled. This covers CustomField.tsx, EmailCodeModal.tsx and ResentEmailCode.tsx.
- Only the exceptions that follow from the tables are modelled: a unique-constraint violation and a missing row on update or delete. Database outages and other thrown errors are not. So `logIn`'s "Failed to log in" catch is never reached in the model.
- `createUser`'s `passwordHash === null` and `!data` branches are not modelled. Hashing always yields a string, and the insert returns a row or throws.
- The code row's own `id` is not modelled. With the unique `userId`, "delete by id" is the deletion of the row that was found.
- The database schema is not part of this model. `emailVerified` is assumed to default to false. `username` is assumed not unique.
- DeleteUser: the referential actions on user deletion are not modelled; the code and session tables are left as they were. With a cascade those rows would also go. With a restrict relation from sessions to users, `prisma.user.delete` would throw for every signed-in caller (src/lib/actions/user.action.ts:316-320), and the model's successful delete would then be unreachable.
- Lengths count characters, not UTF-16 code units, so a string outside the Basic Multilingual Plane measures shorter here than in the browser.
- The zxcvbn score is an input; the estimator itself is not modelled.
- Concurrent requests are not modelled. In particular, two interleaved delete-then-create issuances are not.
