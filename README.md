# SNAP2BUY authentication screens, modelled in Dafny

SNAP2BUY is a small React Native client with three screens: Login, Signup and
Home. The only decision logic is in the submit handlers of the two
authentication screens. This project models that logic:

- `handleSignUp` on the sign-up screen. It checks the email against the fixed
  pattern `^[a-zA-Z0-9._%+-]+@(gmail\.com|outlook\.com)$`. It then checks that
  the password equals its confirmation. Only then does it POST
  `{name, email, password}`. Status 201 leads to a success alert and a move to
  Login. Any other status, or a thrown error, leads to the same failure alert.
- `handleLogin` on the login screen. It always POSTs `{email, password}`, with
  no local check. Status 200 leads to a success alert and a move to Home. A
  thrown error leads to a fixed failure alert. Any other resolved status does
  nothing.
- The form state of both screens (`useState('')` fields and their setters),
  and the links between the two screens.

Files:

- `regex.dfy` (module `Regex`): a small regular-expression language. Its
  meaning is given as a language (the set of strings a pattern matches). A
  pattern also carries its anchors, which give the meaning of JavaScript's
  `RegExp.prototype.test`.
- `email.dfy` (module `EmailValidation`): the sign-up pattern written in that
  language, and `IsValidEmail`, the executable check the handler runs. The two
  are proved to agree on every string. Further lemmas describe the shape of an
  accepted address.
- `effects.dfy` (module `Effects`): a handler's effects, recorded as a value
  (`Outcome`). The network round trip is an input, `Response = Status(n) | Thrown`.
- `signup.dfy` (module `SignupFlow`) and `login.dfy` (module `LoginFlow`): each
  handler's decision as a pure function, plus a class holding the screen's form
  state. The class's handler method is proved equal to that function.

Behaviour of the code worth noting:

- A login request that resolves with a status other than 200 shows nothing,
  because the `if` at android/src/Screens/Login.tsx:35 has no `else`.
  `LoginDecision` and `UnexpectedStatusIsSilent` state this.
- Sign-up shows the same failure alert on every failure, but only the `catch`
  branch calls `console.error`. The `errorLogged` field records that
  difference.
- With axios's default settings a 401 reaches the handler as a thrown error,
  so it is `Thrown` here. `Status(401)` stands for a request that resolved
  with 401.

## Model

| member | source | states |
|---|---|---|
| Regex.Test | android/src/Screens/Signup.tsx:41 | `p.test(s)`: some substring the anchors allow is in the pattern's language; a string wholly in the language always passes, whatever the anchors |
| Regex.AnchoredTest | android/src/Screens/Signup.tsx:40-41 | `test` with a pattern anchored by `^` and `$` (no `m` flag) succeeds exactly when the whole string is in the pattern's language |
| Regex.WordMatches | android/src/Screens/Signup.tsx:40 | a literal word such as `gmail\.com` matches exactly itself, with no case folding |
| Regex.PlusClassMatches | android/src/Screens/Signup.tsx:40 | a bracket class followed by `+` matches exactly the non-empty strings whose characters are all in the class |
| Regex.CatLitMatches | android/src/Screens/Signup.tsx:40 | a literal followed by a pattern matches a string exactly when the literal is the string's first character and the pattern matches the rest |
| EmailValidation.IsValidEmail | android/src/Screens/Signup.tsx:40-41 | the check the handler runs on the email field; an accepted address is at least 11 characters long and ends in `.com` (its agreement with the pattern is `EmailPatternSpec`) |
| EmailValidation.LocalCharInClass | android/src/Screens/Signup.tsx:40 | the character test the check uses agrees with the class `[a-zA-Z0-9._%+-]` on every character |
| EmailValidation.LocalMatches | android/src/Screens/Signup.tsx:40 | `[a-zA-Z0-9._%+-]+` matches exactly the non-empty runs of local-part characters |
| EmailValidation.DomainMatches | android/src/Screens/Signup.tsx:40 | the domain group matches exactly `gmail.com` and `outlook.com` |
| EmailValidation.TailMatches | android/src/Screens/Signup.tsx:40 | `'@'` followed by the domain group matches exactly `'@'` followed by one of the two domains |
| EmailValidation.Parts | android/src/Screens/Signup.tsx:40 | an accepted address splits as a non-empty local part from the class, then `'@'`, then `gmail.com` or `outlook.com` |
| EmailValidation.AtOnlyAfterLocal | android/src/Screens/Signup.tsx:40 | in an accepted address, the only `'@'` is the one right after the local part |
| EmailValidation.ValidEmailParts | android/src/Screens/Signup.tsx:40 | local part + `'@'` + domain is accepted exactly when the local part is non-empty and drawn from the class and the domain is literally one of the two |
| EmailValidation.BodyAccepts | android/src/Screens/Signup.tsx:40 | every string the check accepts is in the language of the pattern |
| EmailValidation.BodyOnlyAccepts | android/src/Screens/Signup.tsx:40 | every string in the language of the pattern passes the check |
| EmailValidation.EmailPatternSpec | android/src/Screens/Signup.tsx:40-41 | for every string, `emailRegex.test(s)` (with `EmailPattern`, the constant that writes out `emailRegex`) holds exactly when the executable check accepts `s` (both directions) |
| EmailValidation.PatternParts | android/src/Screens/Signup.tsx:40-41 | `emailRegex.test(local + "@" + domain)` holds exactly when the local part is non-empty and drawn from the class and the domain is `gmail.com` or `outlook.com` |
| EmailValidation.ExactlyOneAt | android/src/Screens/Signup.tsx:40 | every accepted address contains exactly one `'@'` |
| EmailValidation.DomainCaseSensitive | android/src/Screens/Signup.tsx:40-41 | `x@gmail.com` is accepted for every valid local part `x`, and `x@Gmail.com` is refused for every `x` |
| EmailValidation.OnlyTwoProviders | android/src/Screens/Signup.tsx:40-41 | `outlook.com` is accepted like `gmail.com`; every other domain, `yahoo.com` included, is refused |
| EmailValidation.AnchorsHold | android/src/Screens/Signup.tsx:40-41 | an empty local part is refused, and any non-empty text `t` after `@gmail.com` or `@outlook.com`, a newline included, makes the address refused |
| SignupFlow.SignUpDecision | android/src/Screens/Signup.tsx:38-70 | a request is sent exactly when the email passes the check and the passwords are identical; it carries `{name, email, password}`; a bad email gives the "Invalid Email" alert whatever the passwords; otherwise a password mismatch gives "Passwords do not match"; navigation happens exactly on status 201 and only to Login; every other ending gives "Sign Up Failed"; only a thrown error is logged; every run shows exactly one alert |
| SignupFlow.SignUpFollowsPattern | android/src/Screens/Signup.tsx:40-44 | the same decision stated with `emailRegex.test` itself: a request is sent exactly when the pattern accepts the email and the passwords are identical, and an email the pattern refuses always gets the "Invalid Email" alert |
| SignupFlow.RejectedIgnoresResponse | android/src/Screens/Signup.tsx:41-50 | when a local check stops the handler, no request is made and the outcome does not depend on any network answer |
| SignupFlow.EmailCheckFirst | android/src/Screens/Signup.tsx:40-50 | with a refused email, forms that differ in name or passwords lead to the same outcome: the email message comes first and alone |
| SignupFlow.FailuresLookAlike | android/src/Screens/Signup.tsx:60-69 | a status other than 201 and a thrown error show the same alert and do not navigate |
| SignupFlow.ConfirmationNeverSent | android/src/Screens/Signup.tsx:52-57 | whatever the confirmation field holds, a request that is sent carries exactly the name, email and password fields, never the confirmation |
| SignupFlow.SignUpScreen.constructor | android/src/Screens/Signup.tsx:21-24 | all four fields start empty |
| SignupFlow.SignUpScreen.SetName | android/src/Screens/Signup.tsx:84-85 | typing in the name field replaces the name and nothing else |
| SignupFlow.SignUpScreen.SetEmail | android/src/Screens/Signup.tsx:91-92 | typing in the email field replaces the email and nothing else |
| SignupFlow.SignUpScreen.SetPassword | android/src/Screens/Signup.tsx:99-100 | typing in the password field replaces the password and nothing else |
| SignupFlow.SignUpScreen.SetConfirmPassword | android/src/Screens/Signup.tsx:107-108 | typing in the confirmation field replaces the confirmation and nothing else |
| SignupFlow.SignUpScreen.HandleSignUp | android/src/Screens/Signup.tsx:38-70 | the handler, with its early returns, does exactly what `SignUpDecision` says for the current fields |
| SignupFlow.SignUpScreen.PressSignInLink | android/src/Screens/Signup.tsx:116 | the "Sign In" link goes to Login |
| LoginFlow.LoginDecision | android/src/Screens/Login.tsx:27-43 | every run posts `{email, password}` unchanged; navigation happens exactly on status 200 and only to Home; the success alert comes exactly with that navigation; a thrown error gives the fixed "Login Failed" alert and is logged; a resolved status other than 200 shows no alert |
| LoginFlow.UnexpectedStatusIsSilent | android/src/Screens/Login.tsx:35-38 | a resolved status other than 200 makes the request and does nothing else |
| LoginFlow.LoginScreen.constructor | android/src/Screens/Login.tsx:24-25 | both fields start empty |
| LoginFlow.LoginScreen.SetEmail | android/src/Screens/Login.tsx:79-80 | typing in the email field replaces the email and nothing else |
| LoginFlow.LoginScreen.SetPassword | android/src/Screens/Login.tsx:87-88 | typing in the password field replaces the password and nothing else |
| LoginFlow.LoginScreen.HandleLogin | android/src/Screens/Login.tsx:27-43 | the handler does exactly what `LoginDecision` says for the current fields |
| LoginFlow.LoginScreen.PressSignUpLink | android/src/Screens/Login.tsx:105 | the "Sign up" link goes to Signup |

## Left out

- HTTP transport: `axios.post`, the hard-coded `http://10.0.2.2:5000` base URL, the endpoint paths, JSON encoding, and axios's own rule for which statuses it rejects. The answer to the POST is an input, `Status(n)` or `Thrown`.
- `Alert.alert`, `console.error` and `navigation.navigate` are recorded as fields of `Outcome`, not performed. The order of the alert and the navigation within one run is not recorded. The error object passed to `console.error` is not recorded either.
- An exception thrown by `Alert.alert` or `navigation.navigate` inside the `try` block would reach the `catch` branch. These calls are assumed not to throw.
- The navigation stack itself: push rather than reset, back navigation, the initial route (android/src/Navigation/Stacknavigation.tsx is not part of this model). Only the target route of each navigation is recorded.
- Re-entrancy: a second press while a request is in flight, and late results after the screen is gone. This is event-loop concurrency.
- Animation (`Animated.timing`, `Animated.spring`), styles and layout, the unused "Forgot?" and "Sign in with Google" buttons, and the Home screen (camera permission, image picking; android/src/Screens/Home.tsx is not part of this model).
- JavaScript strings are UTF-16 code units, and Dafny strings are Unicode scalar values. A character outside the Basic Multilingual Plane counts as one character here and two in JavaScript. This does not change which addresses are accepted, because no such character is in the class or in either domain.
