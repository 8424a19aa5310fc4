/** What a screen's submit handler can do, recorded as a value: the request it
    posts, the alert it shows, where it navigates and whether it logs an error.
    The network round trip is an input: how the awaited POST ended. */
module Effects {

  datatype Option<+T> = None | Some(value: T)

  /** The routes registered on the stack navigator. */
  datatype Route = Login | Signup | Home

  /** One call `Alert.alert(title, message)`. */
  datatype Alert = Alert(title: string, message: string)

  /** How the awaited POST ended: it resolved with an HTTP status, or it threw. */
  datatype Response = Status(code: int) | Thrown

  /** Everything one invocation of a submit handler does; `B` is the type of the
      JSON body posted, `errorLogged` is the `console.error` of the catch branch. */
  datatype Outcome<B> = Outcome(request: Option<B>, alert: Option<Alert>, navigation: Option<Route>, errorLogged: bool)
}
