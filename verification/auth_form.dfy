/**
 The registration / login form: the field schema, the submit decision and
 the form library's gate that runs the decision only on values the schema
 accepts.
 */
module AuthForm {
  import opened Wrappers
  import opened Store

  /** The form's values as the form library holds them; a field never rendered is absent. */
  datatype FormValues = FormValues(username: Option<string>, email: Option<string>,
                                   password: Option<string>, confirmPassword: Option<string>)

  /** Values the schema accepted. */
  datatype FormData = FormData(username: string, email: string, password: string, confirmPassword: string)

  /** Which server action the submit handler calls, if any. */
  datatype Submission =
    | CallLogIn(email: string, password: string)
    | CallCreateUser(user: ClientUser)
    | PasswordsDiffer   // the handler stops with a "Passwords don't match" toast
    | NotSubmitted      // the schema rejected the values, the handler never runs

  predicate UsernameOk(s: string) {
    3 <= |s| <= 50
  }

  predicate PasswordOk(s: string) {
    8 <= |s| <= 50
  }

  /** `z.string().min(8).max(255).safeParse(data)`, the check inside the refinement. */
  function ParseServerPassword(data: string): (r: Option<string>)
    ensures r.Some? <==> 8 <= |data| <= 255
    ensures r.Some? ==> r.value == data
  {
    if 8 <= |data| <= 255 then Some(data) else None
  }

  /** The `confirmPassword` refinement: it compares the value with its own parse. */
  predicate ConfirmRefinement(data: string) {
    match ParseServerPassword(data)
    case None => false
    case Some(parsed) => data == parsed
  }

  /** The `confirmPassword` field's schema: bounds 8..50, then the refinement. */
  predicate ConfirmPasswordOk(s: string) {
    8 <= |s| <= 50 && ConfirmRefinement(s)
  }

  /** The whole `formSchema`: every field present and within its bounds. */
  function ParseForm(isEmail: string -> bool, v: FormValues): (r: Option<FormData>)
    ensures r.Some? <==>
              && v.username.Some? && UsernameOk(v.username.value)
              && v.email.Some? && isEmail(v.email.value)
              && v.password.Some? && PasswordOk(v.password.value)
              && v.confirmPassword.Some? && 8 <= |v.confirmPassword.value| <= 50
    ensures r.Some? ==> r.value == FormData(v.username.value, v.email.value, v.password.value, v.confirmPassword.value)
  {
    if && v.username.Some? && UsernameOk(v.username.value)
       && v.email.Some? && isEmail(v.email.value)
       && v.password.Some? && PasswordOk(v.password.value)
       && v.confirmPassword.Some? && ConfirmPasswordOk(v.confirmPassword.value)
    then Some(FormData(v.username.value, v.email.value, v.password.value, v.confirmPassword.value))
    else None
  }

  /** `onSubmit`: log in, or check the two passwords agree and register. */
  function OnSubmit(isLogin: bool, data: FormData): (r: Submission)
    ensures r != NotSubmitted
    ensures isLogin <==> r.CallLogIn?
    ensures r.CallLogIn? ==> r.email == data.email && r.password == data.password
    ensures r.CallCreateUser? <==> !isLogin && data.password == data.confirmPassword
    ensures r.CallCreateUser? ==>
              r.user.email == data.email && r.user.username == data.username && r.user.password == data.password
  {
    if isLogin then CallLogIn(data.email, data.password)
    else if data.password != data.confirmPassword then PasswordsDiffer
    else CallCreateUser(ClientUser(data.username, data.email, data.password))
  }

  /** `form.handleSubmit(onSubmit)`: validate with the schema, then run the handler. */
  function HandleSubmit(isEmail: string -> bool, isLogin: bool, v: FormValues): (r: Submission)
    ensures r == NotSubmitted <==> ParseForm(isEmail, v).None?
    ensures r.CallCreateUser? ==>
              && PasswordOk(r.user.password) && UsernameOk(r.user.username) && isEmail(r.user.email)
              && v.password == v.confirmPassword
    ensures isLogin && ParseForm(isEmail, v).Some? ==> r == CallLogIn(v.email.value, v.password.value)
    ensures !isLogin && ParseForm(isEmail, v).Some? && v.password == v.confirmPassword ==>
              r == CallCreateUser(ClientUser(v.username.value, v.email.value, v.password.value))
  {
    match ParseForm(isEmail, v)
    case None => NotSubmitted
    case Some(data) => OnSubmit(isLogin, data)
  }

  /** The confirmation field's verdict never depends on the password field. */
  lemma ConfirmIgnoresPassword(s: string)
    ensures ConfirmPasswordOk(s) <==> 8 <= |s| <= 50
  {
  }

  /** The schema accepts two different passwords; only `onSubmit` catches the mismatch. */
  lemma SchemaAcceptsMismatch(isEmail: string -> bool)
    requires isEmail("a@b.co")
    ensures ParseForm(isEmail, FormValues(Some("ann"), Some("a@b.co"), Some("password1"), Some("password2"))).Some?
    ensures HandleSubmit(isEmail, false, FormValues(Some("ann"), Some("a@b.co"), Some("password1"), Some("password2"))) == PasswordsDiffer
  {
  }

  /** For every form the schema accepts, differing passwords stop the registration before `createUser`. */
  lemma MismatchNeverRegisters(isEmail: string -> bool, v: FormValues)
    requires ParseForm(isEmail, v).Some?
    requires v.password != v.confirmPassword
    ensures HandleSubmit(isEmail, false, v) == PasswordsDiffer
  {
  }

  // ---------------------------------------------------------------------------
  // The login form

  /** The values the login form holds: only email and password are ever rendered. */
  function LoginValues(email: string, password: string): FormValues {
    FormValues(None, Some(email), Some(password), None)
  }

  /** As written: the login form is validated with the registration schema, so it never submits. */
  lemma LoginFormNeverSubmits(isEmail: string -> bool, email: string, password: string)
    ensures HandleSubmit(isEmail, true, LoginValues(email, password)) == NotSubmitted
  {
  }

  /** A schema with only the fields the login form renders. */
  function ParseLoginForm(isEmail: string -> bool, v: FormValues): (r: Option<(string, string)>)
    ensures r.Some? <==> v.email.Some? && isEmail(v.email.value) && v.password.Some? && PasswordOk(v.password.value)
    ensures r.Some? ==> r.value == (v.email.value, v.password.value)
    ensures ParseForm(isEmail, v).Some? ==> r == Some((v.email.value, v.password.value))
    ensures v.username.Some? && UsernameOk(v.username.value)
            && v.confirmPassword.Some? && ConfirmPasswordOk(v.confirmPassword.value) ==>
              (r.Some? <==> ParseForm(isEmail, v).Some?)
  {
    if v.email.Some? && isEmail(v.email.value) && v.password.Some? && PasswordOk(v.password.value)
    then Some((v.email.value, v.password.value))
    else None
  }

  /** Corrected login submission: validate with the login schema, then call `logIn`. */
  function HandleLoginSubmit(isEmail: string -> bool, v: FormValues): (r: Submission)
    ensures r.CallLogIn? || r == NotSubmitted
    ensures r.CallLogIn? <==> v.email.Some? && isEmail(v.email.value) && v.password.Some? && PasswordOk(v.password.value)
    ensures r.CallLogIn? ==> r.email == v.email.value && r.password == v.password.value
    ensures ParseForm(isEmail, v).Some? ==> r == HandleSubmit(isEmail, true, v)
    ensures v.username.Some? && UsernameOk(v.username.value)
            && v.confirmPassword.Some? && ConfirmPasswordOk(v.confirmPassword.value) ==>
              r == HandleSubmit(isEmail, true, v)
  {
    match ParseLoginForm(isEmail, v)
    case None => NotSubmitted
    case Some((email, password)) => CallLogIn(email, password)
  }

  /** With the login schema, a well-formed login form reaches `logIn` with exactly its two fields. */
  lemma LoginFormSubmits(isEmail: string -> bool, email: string, password: string)
    requires isEmail(email) && PasswordOk(password)
    ensures HandleLoginSubmit(isEmail, LoginValues(email, password)) == CallLogIn(email, password)
  {
  }
}
