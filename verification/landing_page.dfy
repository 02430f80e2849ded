/**
  The landing page: which view shows, the greeting on the signed-in view,
  and the error line under the Google button.
 */
module LandingPage {
  import opened Wrappers
  import AuthContext
  import Text

  /** `user.displayName?.split(' ')[0] || 'Athlete'`. */
  function GreetingName(displayName: Option<string>): (r: string)
    ensures r != ""
    ensures r != "Athlete" ==> displayName.Some? && r <= displayName.value && ' ' !in r
  {
    match displayName
    case None => "Athlete"
    case Some(n) =>
      var first := Text.BeforeFirst(n, ' ');
      if first == "" then "Athlete" else first
  }

  /**
    A name whose first space-delimited word is non-empty greets with exactly
    that word: the longest prefix without a space. Otherwise the greeting
    falls back to `Athlete`.
   */
  lemma GreetingIsFirstWord(n: string, w: string)
    requires w != "" && w <= n && ' ' !in w && (|w| < |n| ==> n[|w|] == ' ')
    ensures GreetingName(Some(n)) == w
  {
    var f := Text.BeforeFirst(n, ' ');
    assert f == n[..|f|] && w == n[..|w|];
  }

  lemma GreetingFallback(n: string)
    requires n == "" || n[0] == ' '
    ensures GreetingName(Some(n)) == "Athlete"
    ensures GreetingName(None) == "Athlete"
  {
  }

  /** The page's own state. */
  datatype Landing = Landing(showEmailForm: bool, googleError: string)

  /** `handleGoogleSignIn` while the popup is open: the previous error is cleared. */
  function GooglePending(l: Landing): (r: Landing)
    ensures r.googleError == "" && r.showEmailForm == l.showEmailForm
  {
    l.(googleError := "")
  }

  /** `handleGoogleSignIn` once `signInWithGoogle` has answered `result`. */
  function GoogleAttempt(l: Landing, result: AuthContext.AuthResult): (r: Landing)
    ensures r.showEmailForm == l.showEmailForm
    ensures r.googleError != "" <==> result.Failed? && result.error != ""
    ensures r.googleError != "" ==> r.googleError == result.error
  {
    var p := GooglePending(l);
    if AuthContext.ErrorOf(result) != "" then p.(googleError := AuthContext.ErrorOf(result)) else p
  }

  /** The line under the button shows a message exactly when the popup threw, whatever was shown before. */
  lemma GoogleErrorIffThrew(l: Landing, call: AuthContext.Call<AuthContext.User>)
    ensures GoogleAttempt(l, AuthContext.SignIn(call)).googleError != "" <==> call.Threw?
    ensures call.Threw? ==> GoogleAttempt(l, AuthContext.SignIn(call)).googleError == AuthContext.ErrorMessage(call.code)
    ensures GoogleAttempt(l, AuthContext.SignIn(call)) == GoogleAttempt(l.(googleError := ""), AuthContext.SignIn(call))
  {
  }

  datatype View = Spinner | SignedOut | Home(greeting: string)

  /** The spinner while the auth state is loading, then the signed-out or the signed-in view. */
  function ViewOf(loading: bool, user: Option<AuthContext.User>): (v: View)
    ensures v.Spinner? <==> loading
    ensures v.SignedOut? <==> !loading && user.None?
    ensures v.Home? ==> user.Some? && v.greeting == GreetingName(user.value.displayName)
  {
    if loading then Spinner
    else match user
      case None => SignedOut
      case Some(u) => Home(GreetingName(u.displayName))
  }

  /** While loading, who is signed in makes no difference to what shows. */
  lemma LoadingHidesUser(a: Option<AuthContext.User>, b: Option<AuthContext.User>)
    ensures ViewOf(true, a) == ViewOf(true, b)
  {
  }

  /** Example: `Sam Lee` is greeted as `Sam`. */
  lemma GreetingExample()
    ensures GreetingName(Some("Sam Lee")) == "Sam"
  {
    GreetingIsFirstWord("Sam Lee", "Sam");
  }
}
