/**
 The sign-up tab of the login page: the checks run on submit, first failure
 wins; the request a valid form sends; the message shown when the server
 refuses; and the screen after the attempt. The server's answer is a parameter.
 */
module SignUp {
  import opened Options
  import opened Seqs
  import opened Text
  import opened FormRules

  datatype SignUpForm = SignUpForm(
    firstName: string,
    lastName: string,
    email: string,
    username: string,
    handle: string,
    password: string,
    confirmPassword: string)

  const EmptySignUpForm := SignUpForm("", "", "", "", "", "", "")

  const MinPasswordLength: nat := 6

  /** The sign-up checks, in the order they run. */
  datatype SignUpError =
    | FirstNameRequired
    | LastNameRequired
    | InvalidEmail
    | UsernameRequired
    | UsernameHasSpaces
    | HandleRequired
    | BareHandle
    | PasswordTooShort
    | PasswordMismatch

  function SignUpOrder(e: SignUpError): nat {
    match e
    case FirstNameRequired => 0
    case LastNameRequired => 1
    case InvalidEmail => 2
    case UsernameRequired => 3
    case UsernameHasSpaces => 4
    case HandleRequired => 5
    case BareHandle => 6
    case PasswordTooShort => 7
    case PasswordMismatch => 8
  }

  function SignUpMessage(e: SignUpError): string {
    match e
    case FirstNameRequired => "First name is required"
    case LastNameRequired => "Last name is required"
    case InvalidEmail => "Valid email is required"
    case UsernameRequired => "Username is required"
    case UsernameHasSpaces => "Username must not contain spaces"
    case HandleRequired => "Handle is required"
    case BareHandle => "Handle must contain characters after \"@\""
    case PasswordTooShort => "Password must be at least 6 characters"
    case PasswordMismatch => "Passwords do not match"
  }

  /**
   What each check objects to, on the form as typed. Every field but the two
   passwords is trimmed first.
   */
  ghost predicate SignUpFails(f: SignUpForm, e: SignUpError) {
    match e
    case FirstNameRequired => AllSpace(f.firstName)
    case LastNameRequired => AllSpace(f.lastName)
    case InvalidEmail => !MatchesEmailPattern(Trim(f.email))
    case UsernameRequired => AllSpace(f.username)
    case UsernameHasSpaces => HasSpace(Trim(f.username))
    case HandleRequired => AllSpace(f.handle)
    case BareHandle => Trim(f.handle) == "@"
    case PasswordTooShort => |f.password| < MinPasswordLength
    case PasswordMismatch => f.password != f.confirmPassword
  }

  // ----- the chain as the handler runs it -----

  /**
   The outcome of each of the handler's tests, taken on the trimmed fields:
   an empty address is rejected before the pattern is tried, and the handle is
   `@`-prefixed before the bare-`@` test.
   */
  datatype SignUpTests = SignUpTests(
    firstNameBlank: bool,
    lastNameBlank: bool,
    emailRejected: bool,
    usernameBlank: bool,
    usernameSpaced: bool,
    handleBlank: bool,
    handleBare: bool,
    passwordShort: bool,
    passwordsDiffer: bool)

  function RunSignUpTests(f: SignUpForm): SignUpTests {
    var email := Trim(f.email);
    var username := Trim(f.username);
    var handle := Trim(f.handle);
    SignUpTests(
      Trim(f.firstName) == "",
      Trim(f.lastName) == "",
      email == "" || !IsValidEmail(email),
      username == "",
      HasSpace(username),
      handle == "",
      NormalizeHandle(handle) == "@",
      |f.password| < MinPasswordLength,
      f.password != f.confirmPassword)
  }

  /** The outcome of the test behind check `e`. */
  predicate Rejects(t: SignUpTests, e: SignUpError) {
    match e
    case FirstNameRequired => t.firstNameBlank
    case LastNameRequired => t.lastNameBlank
    case InvalidEmail => t.emailRejected
    case UsernameRequired => t.usernameBlank
    case UsernameHasSpaces => t.usernameSpaced
    case HandleRequired => t.handleBlank
    case BareHandle => t.handleBare
    case PasswordTooShort => t.passwordShort
    case PasswordMismatch => t.passwordsDiffer
  }

  predicate HandlerRejects(f: SignUpForm, e: SignUpError) {
    Rejects(RunSignUpTests(f), e)
  }

  /** Which field of the record each check reads. */
  lemma RejectsFields(t: SignUpTests)
    ensures Rejects(t, FirstNameRequired) == t.firstNameBlank
    ensures Rejects(t, LastNameRequired) == t.lastNameBlank
    ensures Rejects(t, InvalidEmail) == t.emailRejected
    ensures Rejects(t, UsernameRequired) == t.usernameBlank
    ensures Rejects(t, UsernameHasSpaces) == t.usernameSpaced
    ensures Rejects(t, HandleRequired) == t.handleBlank
    ensures Rejects(t, BareHandle) == t.handleBare
    ensures Rejects(t, PasswordTooShort) == t.passwordShort
    ensures Rejects(t, PasswordMismatch) == t.passwordsDiffer
  {
  }

  /** The earliest check, in running order, whose test failed: every earlier test passed. */
  function FirstRejection(t: SignUpTests): (r: Option<SignUpError>)
    ensures r.Some? ==> Rejects(t, r.value)
    ensures forall e :: (r.None? || SignUpOrder(e) < SignUpOrder(r.value)) ==> !Rejects(t, e)
  {
    if t.firstNameBlank then Some(FirstNameRequired)
    else if t.lastNameBlank then Some(LastNameRequired)
    else if t.emailRejected then Some(InvalidEmail)
    else if t.usernameBlank then Some(UsernameRequired)
    else if t.usernameSpaced then Some(UsernameHasSpaces)
    else if t.handleBlank then Some(HandleRequired)
    else if t.handleBare then Some(BareHandle)
    else if t.passwordShort then Some(PasswordTooShort)
    else if t.passwordsDiffer then Some(PasswordMismatch)
    else None
  }

  /** The first check the handler rejects the form on, if any. */
  function SignUpFirstError(f: SignUpForm): Option<SignUpError> {
    FirstRejection(RunSignUpTests(f))
  }

  lemma BlankTestAgrees(s: string)
    ensures Trim(s) == "" <==> AllSpace(s)
  {
  }

  lemma EmailTestAgrees(email: string)
    ensures Trim(email) == "" || !IsValidEmail(Trim(email)) <==> !MatchesEmailPattern(Trim(email))
  {
    IsValidEmailMatchesPattern(Trim(email));
    EmptyEmailFailsPattern();
  }

  lemma HandleTestAgrees(handle: string)
    requires Trim(handle) != ""
    ensures NormalizeHandle(Trim(handle)) == "@" <==> Trim(handle) == "@"
  {
    NormalizedHandleBare(Trim(handle));
  }

  /** Each of the handler's tests agrees with its check, given that the handle was not blank for the bare-`@` test. */
  lemma HandlerTestsAgree(f: SignUpForm, e: SignUpError)
    requires e == BareHandle ==> !HandlerRejects(f, HandleRequired)
    ensures HandlerRejects(f, e) <==> SignUpFails(f, e)
  {
    var t := RunSignUpTests(f);
    RejectsFields(t);
    match e
    case FirstNameRequired => BlankTestAgrees(f.firstName);
    case LastNameRequired => BlankTestAgrees(f.lastName);
    case InvalidEmail => EmailTestAgrees(f.email);
    case UsernameRequired => BlankTestAgrees(f.username);
    case UsernameHasSpaces =>
    case HandleRequired => BlankTestAgrees(f.handle);
    case BareHandle => HandleTestAgrees(f.handle);
    case PasswordTooShort =>
    case PasswordMismatch =>
  }

  /** Every check before the reported one agrees with the handler's test for it. */
  lemma AgreesBeforeFirst(f: SignUpForm, e: SignUpError)
    requires SignUpFirstError(f).None? || SignUpOrder(e) <= SignUpOrder(SignUpFirstError(f).value)
    ensures HandlerRejects(f, e) <==> SignUpFails(f, e)
  {
    if e == BareHandle {
      assert !Rejects(RunSignUpTests(f), HandleRequired);
    }
    HandlerTestsAgree(f, e);
  }

  /** The handler reports the earliest failing check, and submits exactly when no check fails. */
  lemma SignUpFirstErrorIsFirstFailure(f: SignUpForm)
    ensures var r := SignUpFirstError(f);
      && (r.Some? ==> SignUpFails(f, r.value))
      && (r.Some? ==> forall e :: SignUpOrder(e) < SignUpOrder(r.value) ==> !SignUpFails(f, e))
      && (r.None? <==> forall e :: !SignUpFails(f, e))
  {
    var r := SignUpFirstError(f);
    if r.Some? {
      AgreesBeforeFirst(f, r.value);
      forall e | SignUpOrder(e) < SignUpOrder(r.value)
        ensures !SignUpFails(f, e)
      {
        AgreesBeforeFirst(f, e);
      }
    } else {
      forall e
        ensures !SignUpFails(f, e)
      {
        AgreesBeforeFirst(f, e);
      }
    }
  }

  // ----- the request -----

  datatype SignUpRequest = SignUpRequest(
    firstName: string,
    lastName: string,
    email: string,
    username: string,
    handle: string,
    password: string)

  datatype SignUpCheck = SignUpRejected(error: SignUpError) | SignUpAccepted(request: SignUpRequest)

  /** The validation part of `handleSignUpSubmit`: a failed check, or the request to send. */
  function CheckSignUp(f: SignUpForm): (r: SignUpCheck)
    ensures r.SignUpRejected? <==> SignUpFirstError(f).Some?
    ensures r.SignUpRejected? ==> r.error == SignUpFirstError(f).value
  {
    match SignUpFirstError(f)
    case Some(e) => SignUpRejected(e)
    case None =>
      SignUpAccepted(SignUpRequest(Trim(f.firstName), Trim(f.lastName), Trim(f.email), Trim(f.username),
                                   NormalizeHandle(Trim(f.handle)), f.password))
  }

  /** A rejected form names the first check that objects; a form is accepted exactly when no check objects. */
  lemma CheckSignUpFirstFailure(f: SignUpForm)
    ensures var r := CheckSignUp(f);
      && (r.SignUpRejected? ==> SignUpFails(f, r.error))
      && (r.SignUpRejected? ==> forall e :: SignUpOrder(e) < SignUpOrder(r.error) ==> !SignUpFails(f, e))
      && (r.SignUpAccepted? <==> forall e :: !SignUpFails(f, e))
  {
    SignUpFirstErrorIsFirstFailure(f);
  }

  /**
   The request carries the trimmed names, e-mail and username, the `@`-prefixed
   handle with something after its `@`, and the password as typed, which matches
   the confirmation and is at least six characters long.
   */
  lemma CheckSignUpRequest(f: SignUpForm)
    requires CheckSignUp(f).SignUpAccepted?
    ensures var q := CheckSignUp(f).request;
      && q.firstName == Trim(f.firstName) && q.lastName == Trim(f.lastName)
      && q.email == Trim(f.email) && q.username == Trim(f.username)
      && q.handle == NormalizeHandle(Trim(f.handle)) && |q.handle| >= 2 && q.handle[0] == '@'
      && q.password == f.password == f.confirmPassword && |q.password| >= MinPasswordLength
      && q.firstName != "" && q.lastName != "" && q.username != "" && !HasSpace(q.username)
  {
    var t := RunSignUpTests(f);
    RejectsFields(t);
    assert !Rejects(t, BareHandle) && !Rejects(t, UsernameHasSpaces) && !Rejects(t, PasswordTooShort);
    NormalizedHandleShape(Trim(f.handle));
  }

  /** Surrounding whitespace in the text fields never changes the outcome; in the passwords it does count. */
  lemma SurroundingSpaceIgnored(f: SignUpForm, g: SignUpForm)
    requires Trim(f.firstName) == Trim(g.firstName) && Trim(f.lastName) == Trim(g.lastName)
    requires Trim(f.email) == Trim(g.email) && Trim(f.username) == Trim(g.username)
    requires Trim(f.handle) == Trim(g.handle)
    requires f.password == g.password && f.confirmPassword == g.confirmPassword
    ensures CheckSignUp(f) == CheckSignUp(g)
  {
    assert RunSignUpTests(f) == RunSignUpTests(g);
  }

  // ----- the server's refusal -----

  /** A `detail` value: a string, or some other JSON value, which may be falsy. */
  datatype Detail = TextDetail(text: string) | OtherDetail(truthy: bool)

  predicate Truthy(d: Detail) {
    match d
    case TextDetail(s) => s != ""
    case OtherDetail(t) => t
  }

  /**
   The parts of the thrown error the handler reads: `message`, `status`,
   `response.status`, `response.data.detail` and `detail`, each possibly missing.
   */
  datatype SignUpFailure = SignUpFailure(
    message: Option<string>,
    status: Option<int>,
    responseStatus: Option<int>,
    responseDetail: Option<Detail>,
    detail: Option<Detail>)

  /** `err.message ?? ""` */
  function RawMessage(e: SignUpFailure): string {
    e.message.GetOr("")
  }

  /** `err.status ?? err.response.status` */
  function StatusOf(e: SignUpFailure): (r: Option<int>)
    ensures e.status.Some? ==> r == e.status
    ensures e.status.None? ==> r == e.responseStatus
  {
    if e.status.Some? then e.status else e.responseStatus
  }

  /** `err.response.data.detail ?? err.detail ?? rawMessage` */
  function DetailOf(e: SignUpFailure): (r: Detail)
    ensures e.responseDetail.Some? ==> r == e.responseDetail.value
    ensures e.responseDetail.None? && e.detail.Some? ==> r == e.detail.value
    ensures e.responseDetail.None? && e.detail.None? ==> r == TextDetail(RawMessage(e))
  {
    if e.responseDetail.Some? then e.responseDetail.value
    else if e.detail.Some? then e.detail.value
    else TextDetail(RawMessage(e))
  }

  /** The duplicate-username test: a string detail naming an existing username, or a duplicate-key message about a username. */
  predicate LooksLikeDuplicateUsername(e: SignUpFailure) {
    var d := DetailOf(e);
    var raw := Lower(RawMessage(e));
    || (d.TextDetail? && Contains(Lower(d.text), "username") && Contains(Lower(d.text), "exists"))
    || (Contains(raw, "duplicate key") && Contains(raw, "username"))
  }

  const DuplicateUsernameMessage := "This username is already taken. Please choose another one."

  /** What the error line shows: a string, or a non-string `detail` handed over as it is. */
  datatype ErrorDisplay = Message(text: string) | DetailValue(value: Detail)

  /** `detail || fallback`, as the value shown. */
  function DetailOr(d: Detail, fallback: string): (r: ErrorDisplay)
    ensures !Truthy(d) ==> r == Message(fallback)
    ensures Truthy(d) && d.TextDetail? ==> r == Message(d.text)
    ensures Truthy(d) && d.OtherDetail? ==> r == DetailValue(d)
  {
    match d
    case TextDetail(s) => Message(if s != "" then s else fallback)
    case OtherDetail(t) => if t then DetailValue(d) else Message(fallback)
  }

  /** The catch block of `handleSignUpSubmit`. */
  function ClassifySignUpFailure(e: SignUpFailure): (r: ErrorDisplay)
    ensures LooksLikeDuplicateUsername(e) ==> r == Message(DuplicateUsernameMessage)
    ensures !LooksLikeDuplicateUsername(e) && StatusOf(e) in {Some(409), Some(400)} ==>
      r == DetailOr(DetailOf(e), "Could not create account.")
    ensures !LooksLikeDuplicateUsername(e) && StatusOf(e) !in {Some(409), Some(400)} ==>
      r == Message(if RawMessage(e) != "" then RawMessage(e) else "Failed to create account.")
  {
    if LooksLikeDuplicateUsername(e) then Message(DuplicateUsernameMessage)
    else if StatusOf(e) == Some(409) || StatusOf(e) == Some(400) then DetailOr(DetailOf(e), "Could not create account.")
    else Message(if RawMessage(e) != "" then RawMessage(e) else "Failed to create account.")
  }

  /** Every refusal shows something: never an empty string, never a falsy value. */
  lemma RefusalNeverBlank(e: SignUpFailure)
    ensures var r := ClassifySignUpFailure(e);
      (r.Message? ==> r.text != "") && (r.DetailValue? ==> Truthy(r.value))
  {
  }

  /** A detail naming an existing username wins over whatever status came with it. */
  lemma DuplicateIgnoresStatus(e: SignUpFailure, status: Option<int>, responseStatus: Option<int>)
    requires LooksLikeDuplicateUsername(e)
    ensures ClassifySignUpFailure(e.(status := status, responseStatus := responseStatus)) == Message(DuplicateUsernameMessage)
  {
    var e' := e.(status := status, responseStatus := responseStatus);
    assert DetailOf(e') == DetailOf(e) && RawMessage(e') == RawMessage(e);
  }

  /** The error's own `status` decides the branch; the response's status matters only when it is missing. */
  lemma ErrorStatusFirst(e: SignUpFailure, responseStatus: Option<int>)
    requires e.status.Some?
    ensures ClassifySignUpFailure(e.(responseStatus := responseStatus)) == ClassifySignUpFailure(e)
  {
    var e' := e.(responseStatus := responseStatus);
    assert DetailOf(e') == DetailOf(e) && RawMessage(e') == RawMessage(e) && StatusOf(e') == StatusOf(e);
  }

  // ----- the screen -----

  datatype Tab = LoginTab | SignUpTab

  datatype SignUpScreen = SignUpScreen(tab: Tab, form: SignUpForm, error: Option<ErrorDisplay>, success: Option<string>)

  /** The server's answer to the sign-up request. */
  datatype SignUpReply = Created | Refused(failure: SignUpFailure)

  datatype SignUpSubmit = SignUpSubmit(screen: SignUpScreen, request: Option<SignUpRequest>)

  const AccountCreatedMessage := "Account created successfully. You can now sign in."

  /** Submitting the sign-up form, with `reply` the server's answer should a request go out. */
  function SubmitSignUp(s: SignUpScreen, reply: SignUpReply): (r: SignUpSubmit)
    ensures r.request.Some? <==> CheckSignUp(s.form).SignUpAccepted?
    ensures r.request.Some? ==> r.request.value == CheckSignUp(s.form).request
    ensures r.request.None? ==> r.screen == s.(error := Some(Message(SignUpMessage(CheckSignUp(s.form).error))), success := None)
    ensures r.request.Some? && reply.Created? ==> r.screen == SignUpScreen(LoginTab, EmptySignUpForm, None, Some(AccountCreatedMessage))
    ensures r.request.Some? && reply.Refused? ==> r.screen == s.(error := Some(ClassifySignUpFailure(reply.failure)), success := None)
  {
    match CheckSignUp(s.form)
    case SignUpRejected(e) => SignUpSubmit(s.(error := Some(Message(SignUpMessage(e))), success := None), None)
    case SignUpAccepted(q) =>
      match reply
      case Created => SignUpSubmit(SignUpScreen(LoginTab, EmptySignUpForm, None, Some(AccountCreatedMessage)), Some(q))
      case Refused(failure) => SignUpSubmit(s.(error := Some(ClassifySignUpFailure(failure)), success := None), Some(q))
  }

  /** After an accepted, created sign-up the form is blank again and the login tab is shown; any other outcome keeps what was typed. */
  lemma SubmitSignUpResets(s: SignUpScreen, reply: SignUpReply)
    ensures var r := SubmitSignUp(s, reply);
      && (r.screen.form == EmptySignUpForm && r.screen.tab == LoginTab <== r.request.Some? && reply.Created?)
      && (r.request.None? || reply.Refused? ==> r.screen.form == s.form && r.screen.tab == s.tab && r.screen.error.Some?)
  {
  }

  /** An empty e-mail field needs no separate test: the pattern rejects the empty string too. */
  lemma EmptyEmailFailsPattern()
    ensures !MatchesEmailPattern("")
  {
  }
}
