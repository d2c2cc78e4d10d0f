// The authentication screen: a login form and a signup form sharing one loading flag.
// The hosted auth service is a request the screen issues and a success/failure reply.
// Passwords are sequences of characters; the source counts UTF-16 code units.
module Auth {
  import opened Wrappers

  const MIN_PASSWORD_LENGTH: nat := 6

  datatype SignupError = PasswordMismatch | PasswordTooShort

  /** The checks signup makes before any request, in order: confirmation first, then length. */
  function CheckSignup(password: string, confirmPassword: string): (r: Option<SignupError>)
    ensures r == Some(PasswordMismatch) <==> password != confirmPassword
    ensures r == Some(PasswordTooShort) <==> password == confirmPassword && |password| < MIN_PASSWORD_LENGTH
    ensures r == None <==> password == confirmPassword && |password| >= MIN_PASSWORD_LENGTH
  {
    if password != confirmPassword then Some(PasswordMismatch)
    else if |password| < MIN_PASSWORD_LENGTH then Some(PasswordTooShort)
    else None
  }

  /** A mismatching password is reported as a mismatch even when it is also too short. */
  lemma MismatchFirst(password: string, confirmPassword: string)
    requires password != confirmPassword && |password| < MIN_PASSWORD_LENGTH
    ensures CheckSignup(password, confirmPassword) == Some(PasswordMismatch)
  {
  }

  datatype LoginForm = LoginForm(email: string, password: string)

  datatype SignupForm = SignupForm(
    schoolName: string,
    adminName: string,
    email: string,
    password: string,
    confirmPassword: string)

  /** What the screen asks of the auth service. */
  datatype Request =
    | SignIn(email: string, password: string)
    | SignUp(email: string, password: string, schoolName: string, adminName: string)

  class AuthScreen {
    var isLoading: bool
    var loginData: LoginForm
    var signupData: SignupForm
    /** The request awaiting its reply. */
    var pending: Option<Request>

    /** Loading is on exactly while a request is outstanding. */
    ghost predicate Valid()
      reads this
    {
      isLoading <==> pending.Some?
    }

    constructor ()
      ensures Valid() && !isLoading
      ensures loginData == LoginForm("", "")
      ensures signupData == SignupForm("", "", "", "", "")
    {
      isLoading := false;
      loginData := LoginForm("", "");
      signupData := SignupForm("", "", "", "", "");
      pending := None;
    }

    /** Typing into the login form. */
    method EditLogin(form: LoginForm)
      requires Valid()
      modifies this
      ensures Valid() && loginData == form
      ensures signupData == old(signupData) && isLoading == old(isLoading) && pending == old(pending)
    {
      loginData := form;
    }

    /** Typing into the signup form. */
    method EditSignup(form: SignupForm)
      requires Valid()
      modifies this
      ensures Valid() && signupData == form
      ensures loginData == old(loginData) && isLoading == old(isLoading) && pending == old(pending)
    {
      signupData := form;
    }

    /** Submitting the login form (its button is disabled while loading): no local check, the
        request goes out with the form as it is and loading turns on. */
    method SubmitLogin() returns (req: Request)
      requires Valid() && !isLoading
      modifies this
      ensures Valid() && isLoading
      ensures req == SignIn(old(loginData).email, old(loginData).password) && pending == Some(req)
      ensures loginData == old(loginData) && signupData == old(signupData)
    {
      req := SignIn(loginData.email, loginData.password);
      isLoading := true;
      pending := Some(req);
    }

    /** The reply to a sign-in, success or failure: loading turns off. Returns whether the
        screen moves on to the dashboard. */
    method FinishLogin(succeeded: bool) returns (toDashboard: bool)
      requires Valid() && isLoading && pending.value.SignIn?
      modifies this
      ensures Valid() && !isLoading && pending == None
      ensures toDashboard == succeeded
      ensures loginData == old(loginData) && signupData == old(signupData)
    {
      isLoading := false;
      pending := None;
      toDashboard := succeeded;
    }

    /** Submitting the signup form (its button is disabled while loading). A failed check is
        reported and nothing is sent, loading staying off; otherwise the request goes out and
        loading turns on. */
    method SubmitSignup() returns (r: Result<Request, SignupError>)
      requires Valid() && !isLoading
      modifies this
      ensures Valid()
      ensures var f := old(signupData);
        match CheckSignup(f.password, f.confirmPassword)
        case Some(e) => r == Failure(e) && !isLoading && pending == None
        case None => r == Success(SignUp(f.email, f.password, f.schoolName, f.adminName))
                     && isLoading && pending == Some(r.value)
      ensures loginData == old(loginData) && signupData == old(signupData)
    {
      var check := CheckSignup(signupData.password, signupData.confirmPassword);
      if check.Some? {
        r := Failure(check.value);
        return;
      }
      var req := SignUp(signupData.email, signupData.password, signupData.schoolName, signupData.adminName);
      isLoading := true;
      pending := Some(req);
      r := Success(req);
    }

    /** The reply to a sign-up: loading turns off; on success the login form is filled with the
        email that was signed up and an empty password, on failure it is left as it was. */
    method FinishSignup(succeeded: bool)
      requires Valid() && isLoading && pending.value.SignUp?
      modifies this
      ensures Valid() && !isLoading && pending == None
      ensures loginData == if succeeded then LoginForm(old(pending).value.email, "") else old(loginData)
      ensures signupData == old(signupData)
    {
      if succeeded {
        loginData := LoginForm(pending.value.email, "");
      }
      isLoading := false;
      pending := None;
    }
  }

  /** A whole signup round from an idle screen: a request is issued exactly when the checks
      pass, loading is off once the reply is in, and the login form then holds the signup
      email exactly when the reply was a success. */
  method SignupRound(screen: AuthScreen, succeeded: bool) returns (sent: bool)
    requires screen.Valid() && !screen.isLoading
    modifies screen
    ensures screen.Valid() && !screen.isLoading
    ensures sent <==> CheckSignup(old(screen.signupData).password, old(screen.signupData).confirmPassword).None?
    ensures screen.loginData == if sent && succeeded then LoginForm(old(screen.signupData).email, "")
                                else old(screen.loginData)
  {
    var r := screen.SubmitSignup();
    sent := r.Success?;
    if sent {
      screen.FinishSignup(succeeded);
    }
  }
}
