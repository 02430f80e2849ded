/**
  The e-mail sign-in form: three modes (sign in, sign up, forgot password)
  and the messages a submit leaves behind. The awaited wrapper result is a
  parameter of the submit.
 */
module LoginForm {
  import AuthContext
  import Wrappers

  datatype Login = Login(
    isSignUp: bool,
    isForgotPassword: bool,
    email: string,
    password: string,
    displayName: string,
    error: string,
    message: string,
    loading: bool)

  /** Every field's `useState` default: sign-in mode, empty fields, not loading. */
  const Initial := Login(false, false, "", "", "", "", "", false)

  const ResetSent := "Password reset email sent. Check your inbox."

  /** The wrapper a submit awaits. */
  datatype Request =
    | ResetPassword(email: string)
    | SignUpWithEmail(email: string, password: string, displayName: string)
    | SignInWithEmail(email: string, password: string)

  function RequestOf(s: Login): (q: Request)
    ensures q.ResetPassword? <==> s.isForgotPassword
    ensures q.SignUpWithEmail? <==> !s.isForgotPassword && s.isSignUp
    ensures q.SignUpWithEmail? ==> q.displayName == s.displayName
  {
    if s.isForgotPassword then ResetPassword(s.email)
    else if s.isSignUp then SignUpWithEmail(s.email, s.password, s.displayName)
    else SignInWithEmail(s.email, s.password)
  }

  /** What the form shows while the request is pending: messages cleared, loading on. */
  function Pending(s: Login): (r: Login)
    ensures r.error == "" && r.message == "" && r.loading
    ensures r.isSignUp == s.isSignUp && r.isForgotPassword == s.isForgotPassword
  {
    s.(error := "", message := "", loading := true)
  }

  /** `handleSubmit`, once `result` comes back for `RequestOf(s)`. */
  function Submit(s: Login, result: AuthContext.AuthResult): (r: Login)
    ensures !r.loading
    ensures r.isSignUp == s.isSignUp
    ensures r.email == s.email && r.password == s.password && r.displayName == s.displayName
    ensures s.isForgotPassword && AuthContext.ErrorOf(result) != "" ==>
              r.isForgotPassword && r.error == AuthContext.ErrorOf(result) && r.message == ""
    ensures s.isForgotPassword && AuthContext.ErrorOf(result) == "" ==>
              !r.isForgotPassword && r.error == "" && r.message == ResetSent
    ensures !s.isForgotPassword ==>
              !r.isForgotPassword && r.error == AuthContext.ErrorOf(result) && r.message == ""
  {
    var p := Pending(s);
    var e := AuthContext.ErrorOf(result);
    if p.isForgotPassword then
      if e != "" then p.(error := e, loading := false)
      else p.(message := ResetSent, isForgotPassword := false, loading := false)
    else
      (if e != "" then p.(error := e) else p).(loading := false)
  }

  /** `toggleMode`: the other of sign-in and sign-up, out of forgot mode, messages cleared. */
  function Toggle(s: Login): (r: Login)
    ensures r.isSignUp == !s.isSignUp && !r.isForgotPassword
    ensures r.error == "" && r.message == ""
    ensures r.email == s.email && r.password == s.password && r.displayName == s.displayName
    ensures r.loading == s.loading
  {
    s.(isSignUp := !s.isSignUp, isForgotPassword := false, error := "", message := "")
  }

  /** Toggling twice returns to the same mode with the messages cleared. */
  lemma ToggleTwice(s: Login)
    ensures Toggle(Toggle(s)) == s.(isForgotPassword := false, error := "", message := "")
  {
  }

  /** The `Forgot password?` link exists only in sign-in mode; following it enters forgot mode. */
  function OpenForgot(s: Login): (r: Login)
    ensures !s.isSignUp ==> r == s.(isForgotPassword := true)
    ensures s.isSignUp ==> r == s
  {
    if !s.isSignUp then s.(isForgotPassword := true) else s
  }

  /** `Back to Sign In`. */
  function BackToSignIn(s: Login): (r: Login)
    ensures r == s.(isForgotPassword := false)
  {
    s.(isForgotPassword := false)
  }

  /** A user action on the form; `Submitted` carries the awaited result. */
  datatype Event = Submitted(result: AuthContext.AuthResult) | ToggleMode | ForgotLink | BackLink

  function Step(s: Login, ev: Event): Login {
    match ev
    case Submitted(result) => Submit(s, result)
    case ToggleMode => Toggle(s)
    case ForgotLink => OpenForgot(s)
    case BackLink => BackToSignIn(s)
  }

  function Run(s: Login, evs: seq<Event>): Login
    decreases |evs|
  {
    if |evs| == 0 then s else Run(Step(s, evs[0]), evs[1..])
  }

  /** Forgot mode is entered only from sign-in mode and left on any toggle. */
  predicate ForgotOnlyInSignIn(s: Login) {
    s.isForgotPassword ==> !s.isSignUp
  }

  /**
    No sequence of actions reaches forgot mode while in sign-up mode (the
    initial form satisfies this), and a run ending in a submit is not loading.
   */
  lemma {:induction false} RunKeepsForgotInSignIn(s: Login, evs: seq<Event>)
    requires ForgotOnlyInSignIn(s)
    ensures ForgotOnlyInSignIn(Run(s, evs))
    ensures |evs| > 0 && evs[|evs| - 1].Submitted? ==> !Run(s, evs).loading
    decreases |evs|
  {
    if |evs| > 0 {
      RunKeepsForgotInSignIn(Step(s, evs[0]), evs[1..]);
      if |evs| > 1 {
        assert evs[1..][|evs[1..]| - 1] == evs[|evs| - 1];
      }
    }
  }

  /** A failed sign-in or sign-up always shows its message, which is never empty. */
  lemma FailureShown(s: Login, code: Wrappers.Option<string>)
    requires !s.isForgotPassword
    ensures Submit(s, AuthContext.Failure(code)).error == AuthContext.ErrorMessage(code) != ""
  {
  }

  /** A successful sign-in or sign-up leaves no error and no message. */
  lemma SuccessClears(s: Login, u: AuthContext.User)
    requires !s.isForgotPassword
    ensures Submit(s, AuthContext.SignIn(AuthContext.Ok(u))).error == ""
    ensures Submit(s, AuthContext.SignIn(AuthContext.Ok(u))).message == ""
  {
  }

  /** A reset that went through returns to sign-in with the confirmation; one that failed stays. */
  lemma ResetOutcome(s: Login, sent: AuthContext.Call<()>)
    requires s.isForgotPassword
    ensures sent.Ok? ==> Submit(s, AuthContext.Succeed(sent)) == s.(isForgotPassword := false, error := "", message := ResetSent, loading := false)
    ensures sent.Threw? ==> Submit(s, AuthContext.Succeed(sent)).isForgotPassword
  {
  }
}
