/** The sign-in and sign-up forms (`LoginPage`, `RegisterPage`): field checks in a fixed
    order, the call to the session context, and what the page does with its answer. */
module Forms {
  import opened Wrappers
  import Auth

  /** What a submitted form leads to before the backend: an error line, or a call. */
  datatype LoginCheck = LoginRejected(error: string) | CallLogin(email: string, password: string)
  datatype RegisterCheck = RegisterRejected(error: string) | CallRegister(name: string, email: string, password: string)

  /** What the page does with the context's answer. */
  datatype Effect = ShowError(text: string) | NavigateTo(path: string)

  const FillAllFields := "Please fill in all fields"
  const PasswordsDiffer := "Passwords do not match"
  const PasswordTooShort := "Password must be at least 6 characters"
  const LoginFallback := "Invalid email or password"
  const RegisterFallback := "Registration failed. Please try again."

  /** `location.state?.from?.pathname || "/"`. */
  function ReturnPath(pathname: Option<string>): (r: string)
    ensures r != ""
    ensures pathname.Some? && pathname.value != "" ==> r == pathname.value
    ensures pathname.None? || pathname.value == "" ==> r == "/"
  {
    OrElse(pathname, "/")
  }

  /** `LoginPage.handleSubmit`, up to the call of `login`. */
  function CheckLogin(email: string, password: string): (r: LoginCheck)
    ensures r.CallLogin? <==> email != "" && password != ""
    ensures r.LoginRejected? ==> r.error == FillAllFields
    ensures r.CallLogin? ==> r == CallLogin(email, password)
  {
    if email == "" || password == "" then LoginRejected(FillAllFields) else CallLogin(email, password)
  }

  /** `LoginPage.handleSubmit`, after `login` answered. */
  function LoginAnswered(result: Auth.AuthResult, from: string): (e: Effect)
    ensures result.success ==> e == NavigateTo(from)
    ensures !result.success ==> e == ShowError(OrElse(result.error, LoginFallback))
  {
    if result.success then NavigateTo(from) else ShowError(OrElse(result.error, LoginFallback))
  }

  /** `RegisterPage.handleSubmit`, up to the call of `register`: empty fields first, then
      the confirmation, then the length. */
  function CheckRegister(name: string, email: string, password: string, confirm: string): (r: RegisterCheck)
    ensures name == "" || email == "" || password == "" || confirm == "" ==> r == RegisterRejected(FillAllFields)
    ensures r.CallRegister? <==> name != "" && email != "" && password == confirm && |password| >= 6
    ensures r.CallRegister? ==> r == CallRegister(name, email, password)
  {
    if name == "" || email == "" || password == "" || confirm == "" then RegisterRejected(FillAllFields)
    else if password != confirm then RegisterRejected(PasswordsDiffer)
    else if |password| < 6 then RegisterRejected(PasswordTooShort)
    else CallRegister(name, email, password)
  }

  /** The checks are ordered: a mismatch is reported before a short password, and a six
      character password is long enough. */
  lemma RegisterCheckOrder(name: string, email: string, password: string, confirm: string)
    requires name != "" && email != "" && password != "" && confirm != ""
    ensures password != confirm ==> CheckRegister(name, email, password, confirm) == RegisterRejected(PasswordsDiffer)
    ensures password == confirm && |password| < 6 ==> CheckRegister(name, email, password, confirm) == RegisterRejected(PasswordTooShort)
    ensures password == confirm && |password| == 6 ==> CheckRegister(name, email, password, confirm).CallRegister?
  {
  }

  /** `RegisterPage.handleSubmit`, after `register` answered: a success carrying a message
      shows the message and stays; a plain success leaves for `from`. */
  function RegisterAnswered(result: Auth.AuthResult, from: string): (e: Effect)
    ensures result.success && OrElse(result.message, "") != "" ==> e == ShowError(result.message.value)
    ensures result.success && OrElse(result.message, "") == "" ==> e == NavigateTo(from)
    ensures !result.success ==> e == ShowError(OrElse(result.error, RegisterFallback))
  {
    if result.success then
      if result.message.Some? && result.message.value != "" then ShowError(result.message.value) else NavigateTo(from)
    else ShowError(OrElse(result.error, RegisterFallback))
  }

  /** A whole sign-in submission against the context: the fields are checked, then
      `login` runs with the backend's outcome, then the page reacts. `None` for the state
      means `login` was never called. */
  function SubmitLogin(s: Auth.AuthState, email: string, password: string, pathname: Option<string>, outcome: Auth.SignIn): (r: (Auth.AuthState, Effect))
    ensures email == "" || password == "" ==> r == (s, ShowError(FillAllFields))
    ensures r.1.NavigateTo? ==> r.1.path == ReturnPath(pathname) && r.0.IsAuthenticated() && !r.0.IsGuest()
    ensures s.offline && email != "" && password != "" ==> r == (s, ShowError(Auth.OfflineMessage))
  {
    match CheckLogin(email, password)
    case LoginRejected(e) => (s, ShowError(e))
    case CallLogin(e, p) =>
      var (t, result) := Auth.Login(s, e, p, outcome);
      (t, LoginAnswered(result, ReturnPath(pathname)))
  }

  /** Empty fields are rejected whatever the backend would have said. */
  lemma EmptyFieldsNeverReachBackend(s: Auth.AuthState, email: string, password: string, pathname: Option<string>, a: Auth.SignIn, b: Auth.SignIn)
    requires email == "" || password == ""
    ensures SubmitLogin(s, email, password, pathname, a) == SubmitLogin(s, email, password, pathname, b)
  {
  }

  /** A sign-in leaves the page exactly when both fields are filled, the browser is online
      and the backend signs the user in; otherwise the page shows a non-empty reason and
      the context is as it was. */
  lemma LoginOutcomes(s: Auth.AuthState, email: string, password: string, pathname: Option<string>, outcome: Auth.SignIn)
    ensures var r := SubmitLogin(s, email, password, pathname, outcome);
      && (r.1.NavigateTo? <==> email != "" && password != "" && !s.offline && outcome.SignedIn?)
      && (r.1.ShowError? ==> r.0 == s && r.1.text != "")
  {
  }

  /** What a rejected sign-in shows: never the backend's raw wording for bad credentials, and
      the page's own fallback exactly when the backend said nothing, said that, or already
      used the fallback's words. */
  lemma FailedLoginShows(s: Auth.AuthState, email: string, password: string, pathname: Option<string>, message: string)
    requires !s.offline && email != "" && password != ""
    ensures var r := SubmitLogin(s, email, password, pathname, Auth.SignInFailed(message));
      && r.0 == s && r.1.ShowError? && r.1.text != "Invalid login credentials"
      && (r.1.text == LoginFallback <==> message == "" || message == "Invalid login credentials" || message == LoginFallback)
      && (r.1.text != LoginFallback ==> r.1.text == message)
  {
  }

  /** A whole sign-up submission against the context. */
  function SubmitRegister(s: Auth.AuthState, name: string, email: string, password: string, confirm: string,
                          pathname: Option<string>, outcome: Auth.SignUp): (r: (Auth.AuthState, Effect))
    ensures CheckRegister(name, email, password, confirm).RegisterRejected? ==>
      r == (s, ShowError(CheckRegister(name, email, password, confirm).error))
    ensures r.1.NavigateTo? ==> r.1.path == ReturnPath(pathname) && r.0.IsAuthenticated() && !r.0.IsGuest()
    ensures !s.offline && CheckRegister(name, email, password, confirm).CallRegister? && outcome.AwaitingConfirmation? ==>
      r == (s, ShowError(Auth.ConfirmEmailMessage))
  {
    match CheckRegister(name, email, password, confirm)
    case RegisterRejected(e) => (s, ShowError(e))
    case CallRegister(n, e, p) =>
      var (t, result) := Auth.Register(s, n, e, p, outcome);
      (t, RegisterAnswered(result, ReturnPath(pathname)))
  }

  /** A sign-up leaves the page exactly when the fields pass the checks, the browser is
      online and the backend signs the user up at once; a sign-up awaiting confirmation
      stays with the confirmation text; every other outcome shows a non-empty reason and
      leaves the context as it was. */
  lemma RegisterOutcomes(s: Auth.AuthState, name: string, email: string, password: string, confirm: string,
                         pathname: Option<string>, outcome: Auth.SignUp)
    ensures var r := SubmitRegister(s, name, email, password, confirm, pathname, outcome);
      && (r.1.NavigateTo? <==> CheckRegister(name, email, password, confirm).CallRegister? && !s.offline && outcome.SignedUp?)
      && (r.1.ShowError? ==> r.0 == s && r.1.text != "")
  {
  }

  /** What a rejected sign-up shows: never the backend's raw wording for a taken address; the
      registered-address text exactly for that case; the page's fallback exactly when the
      backend said nothing or used the fallback's words; otherwise the backend's message. */
  lemma FailedRegisterShows(s: Auth.AuthState, name: string, email: string, password: string, pathname: Option<string>, message: string)
    requires !s.offline && CheckRegister(name, email, password, password).CallRegister?
    ensures var r := SubmitRegister(s, name, email, password, password, pathname, Auth.SignUpFailed(message));
      && r.0 == s && r.1.ShowError? && r.1.text != "User already registered"
      && (r.1.text == "This email is already registered" <==>
            message == "User already registered" || message == "This email is already registered")
      && (r.1.text == RegisterFallback <==> message == "" || message == RegisterFallback)
      && (r.1.text != RegisterFallback && r.1.text != "This email is already registered" ==> r.1.text == message)
  {
  }

  /** `handleGuestLogin`: always a guest, always off to `from`. */
  function GuestLogin(s: Auth.AuthState, pathname: Option<string>, stamp: string, createdAt: string): (r: (Auth.AuthState, Effect))
    ensures r.0.IsGuest() && Auth.Valid(r.0)
    ensures r.1 == NavigateTo(ReturnPath(pathname))
  {
    var (t, _) := Auth.LoginAsGuest(s, stamp, createdAt);
    (t, NavigateTo(ReturnPath(pathname)))
  }
}
