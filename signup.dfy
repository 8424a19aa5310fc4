/** The sign-up screen: its form state, its submit handler `handleSignUp` and
    its "Sign In" link. */
module SignupFlow {
  import opened Effects
  import opened Regex
  import opened EmailValidation

  /** The four text fields of the form. */
  datatype SignupForm = SignupForm(name: string, email: string, password: string, confirmPassword: string)

  /** The JSON body posted to the sign-up endpoint; `confirmPassword` is not part of it. */
  datatype SignupBody = SignupBody(name: string, email: string, password: string)

  const InvalidEmail := Alert("Invalid Email", "Please use a Gmail or Outlook email address.")
  const PasswordMismatch := Alert("Passwords do not match", "Please ensure your passwords match.")
  const Registered := Alert("Success", "User registered successfully!")
  const SignUpFailed := Alert("Sign Up Failed", "An error occurred while signing up. Please try again.")

  /** The status the sign-up endpoint answers on success. */
  const Created := 201

  /** One run of the handler on the form `f`, the POST (if made) ending in `response`:
      the email check first, then the password check, then the response. */
  function SignUpDecision(f: SignupForm, response: Response): (o: Outcome<SignupBody>)
    // a request goes out exactly when the email passes the check and the passwords are identical
    ensures o.request.Some? <==> IsValidEmail(f.email) && f.password == f.confirmPassword
    // and it carries name, email and password as typed
    ensures o.request.Some? ==> o.request.value == SignupBody(f.name, f.email, f.password)
    // a bad email is reported whatever the passwords are
    ensures !IsValidEmail(f.email) ==> o == Outcome(None, Some(InvalidEmail), None, false)
    ensures IsValidEmail(f.email) && f.password != f.confirmPassword
            ==> o == Outcome(None, Some(PasswordMismatch), None, false)
    // the only navigation is to Login, on status 201 exactly
    ensures o.navigation.Some? <==> o.request.Some? && response == Status(Created)
    ensures o.navigation.Some? ==> o.navigation.value == Login && o.alert == Some(Registered)
    // every other ending of the request shows the same failure alert
    ensures o.request.Some? && response != Status(Created) ==> o.alert == Some(SignUpFailed)
    ensures o.errorLogged <==> o.request.Some? && response.Thrown?
    // every run shows exactly one alert
    ensures o.alert.Some?
  {
    if !IsValidEmail(f.email) then
      Outcome(None, Some(InvalidEmail), None, false)
    else if f.password != f.confirmPassword then
      Outcome(None, Some(PasswordMismatch), None, false)
    else
      var body := SignupBody(f.name, f.email, f.password);
      match response
      case Status(code) =>
        if code == Created then Outcome(Some(body), Some(Registered), Some(Login), false)
        else Outcome(Some(body), Some(SignUpFailed), None, false)
      case Thrown =>
        Outcome(Some(body), Some(SignUpFailed), None, true)
  }

  /** The decision in terms of `emailRegex.test` itself: a request goes out
      exactly when the pattern accepts the email and the passwords are identical,
      and an email the pattern refuses always gets the "Invalid Email" alert. */
  lemma SignUpFollowsPattern(f: SignupForm, response: Response)
    ensures SignUpDecision(f, response).request.Some?
        <==> Test(EmailPattern, f.email) && f.password == f.confirmPassword
    ensures !Test(EmailPattern, f.email) ==> SignUpDecision(f, response).alert == Some(InvalidEmail)
  {
    EmailPatternSpec(f.email);
  }

  /** When the local checks stop the handler, no request is made, so how the
      network would have answered cannot matter. */
  lemma RejectedIgnoresResponse(f: SignupForm, r1: Response, r2: Response)
    requires SignUpDecision(f, r1).request.None?
    ensures SignUpDecision(f, r2) == SignUpDecision(f, r1)
  {
  }

  /** The email check comes first: with an email the pattern refuses, two forms
      that differ anywhere else (name, passwords) lead to the same outcome. */
  lemma EmailCheckFirst(f: SignupForm, g: SignupForm, r1: Response, r2: Response)
    requires f.email == g.email && !IsValidEmail(f.email)
    ensures SignUpDecision(f, r1) == SignUpDecision(g, r2)
  {
  }

  /** All failures of the request look alike to the user: a status other than
      201 and a thrown error show the same alert and do not navigate; only the
      log tells them apart. */
  lemma FailuresLookAlike(f: SignupForm, r1: Response, r2: Response)
    requires r1 != Status(Created) && r2 != Status(Created)
    ensures SignUpDecision(f, r1).alert == SignUpDecision(f, r2).alert
    ensures SignUpDecision(f, r1).navigation == SignUpDecision(f, r2).navigation == None
    ensures SignUpDecision(f, r1).request == SignUpDecision(f, r2).request
  {
  }

  /** The confirmation field decides whether a request goes out, never what it says. */
  lemma ConfirmationNeverSent(f: SignupForm, confirm: string, r: Response)
    ensures var o := SignUpDecision(f.(confirmPassword := confirm), r);
            o.request.Some? ==> o.request.value == SignupBody(f.name, f.email, f.password)
  {
  }

  /** The screen's state: the four `useState('')` fields and their setters. */
  class SignUpScreen {
    var name: string
    var email: string
    var password: string
    var confirmPassword: string

    constructor ()
      ensures name == "" && email == "" && password == "" && confirmPassword == ""
    {
      name, email, password, confirmPassword := "", "", "", "";
    }

    function Form(): (f: SignupForm)
      reads this
    {
      SignupForm(name, email, password, confirmPassword)
    }

    method SetName(v: string)
      modifies this`name
      ensures name == v
    {
      name := v;
    }

    method SetEmail(v: string)
      modifies this`email
      ensures email == v
    {
      email := v;
    }

    method SetPassword(v: string)
      modifies this`password
      ensures password == v
    {
      password := v;
    }

    method SetConfirmPassword(v: string)
      modifies this`confirmPassword
      ensures confirmPassword == v
    {
      confirmPassword := v;
    }

    /** The "Sign up" button: runs the handler on the fields as they are now.
        This is the handler's early-return form of `SignUpDecision`. */
    method HandleSignUp(response: Response) returns (o: Outcome<SignupBody>)
      ensures o == SignUpDecision(Form(), response)
    {
      if !IsValidEmail(email) {
        return Outcome(None, Some(InvalidEmail), None, false);
      }
      if password != confirmPassword {
        return Outcome(None, Some(PasswordMismatch), None, false);
      }
      var body := SignupBody(name, email, password);
      if response.Status? && response.code == Created {
        o := Outcome(Some(body), Some(Registered), Some(Login), false);
      } else if response.Status? {
        o := Outcome(Some(body), Some(SignUpFailed), None, false);
      } else {
        o := Outcome(Some(body), Some(SignUpFailed), None, true);
      }
    }

    /** The "Sign In" link under the form. */
    method PressSignInLink() returns (target: Route)
      ensures target == Login
    {
      target := Login;
    }
  }
}
