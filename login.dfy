/** The login screen: its form state, its submit handler `handleLogin` and its
    "Sign up" link. The handler checks nothing locally. */
module LoginFlow {
  import opened Effects

  /** The JSON body posted to the login endpoint. */
  datatype LoginBody = LoginBody(email: string, password: string)

  const LoggedIn := Alert("Success", "Logged in successfully!")
  const LoginFailed := Alert("Login Failed", "Invalid email or password. Please try again.")

  /** The status the login endpoint answers on success. */
  const Ok := 200

  /** One run of the handler with the fields `email` and `password`, the POST
      ending in `response`. */
  function LoginDecision(email: string, password: string, response: Response): (o: Outcome<LoginBody>)
    // every run posts the two fields as typed, whatever they hold
    ensures o.request == Some(LoginBody(email, password))
    // navigation happens on status 200 exactly, and only ever to Home
    ensures o.navigation.Some? <==> response == Status(Ok)
    ensures o.navigation.Some? ==> o.navigation.value == Home
    // the success alert comes with that navigation and with nothing else
    ensures o.alert == Some(LoggedIn) <==> o.navigation.Some?
    // a thrown error shows the fixed failure alert and is logged
    ensures o.alert == Some(LoginFailed) <==> response.Thrown?
    ensures o.errorLogged <==> response.Thrown?
    // a resolved status other than 200 shows nothing at all
    ensures o.alert.None? <==> response.Status? && response.code != Ok
  {
    var body := LoginBody(email, password);
    match response
    case Status(code) =>
      if code == Ok then Outcome(Some(body), Some(LoggedIn), Some(Home), false)
      else Outcome(Some(body), None, None, false)
    case Thrown =>
      Outcome(Some(body), Some(LoginFailed), None, true)
  }

  /** A resolved answer other than 200 leaves the screen as it was: the request
      was made and nothing else happens. */
  lemma UnexpectedStatusIsSilent(email: string, password: string, code: int)
    requires code != Ok
    ensures LoginDecision(email, password, Status(code)) == Outcome(Some(LoginBody(email, password)), None, None, false)
  {
  }

  /** The screen's state: the two `useState('')` fields and their setters. */
  class LoginScreen {
    var email: string
    var password: string

    constructor ()
      ensures email == "" && password == ""
    {
      email, password := "", "";
    }

    method SetEmail(v: string)
      modifies this`email
      ensures email == v
    {
      email := v;
    }

    method SetPassword(v: string)
      modifies this`password
      ensures password == v
    {
      password := v;
    }

    /** The "Sign in" button: runs the handler on the fields as they are now.
        This is the handler's step-by-step form of `LoginDecision`. */
    method HandleLogin(response: Response) returns (o: Outcome<LoginBody>)
      ensures o == LoginDecision(email, password, response)
    {
      var body := LoginBody(email, password);
      o := Outcome(Some(body), None, None, false);
      if response.Thrown? {
        o := Outcome(Some(body), Some(LoginFailed), None, true);
      } else if response.code == Ok {
        o := Outcome(Some(body), Some(LoggedIn), Some(Home), false);
      }
    }

    /** The "Sign up" link under the form. */
    method PressSignUpLink() returns (target: Route)
      ensures target == Signup
    {
      target := Signup;
    }
  }
}
