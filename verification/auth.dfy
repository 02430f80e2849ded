/**
  The authentication context: the table that turns an auth error code into
  a message, and the wrappers around the sign-in SDK. Every SDK call is a
  parameter: it either returns a value or throws with an optional code.
 */
module AuthContext {
  import opened Wrappers

  /** The signed-in user as far as the app reads it. */
  datatype User = User(uid: string, displayName: Option<string>)

  /** The outcome of one SDK call: its value, or a thrown error whose `code` may be missing. */
  datatype Call<T> = Ok(value: T) | Threw(code: Option<string>)

  /** `{ user }`, `{ success: true }` or `{ error }`. */
  datatype AuthResult = SignedIn(user: User) | Done | Failed(error: string)

  /** `result.error`, `''` standing for a missing field. */
  function ErrorOf(r: AuthResult): string {
    if r.Failed? then r.error else ""
  }

  const Generic: string := "An error occurred. Please try again."

  /** The eleven codes `getErrorMessage` knows. */
  const Messages: map<string, string> := map[
    "auth/invalid-email" := "Please enter a valid email address.",
    "auth/user-disabled" := "This account has been disabled.",
    "auth/user-not-found" := "No account found with this email.",
    "auth/wrong-password" := "Incorrect password. Please try again.",
    "auth/invalid-credential" := "Invalid email or password.",
    "auth/email-already-in-use" := "An account already exists with this email.",
    "auth/weak-password" := "Password should be at least 6 characters.",
    "auth/too-many-requests" := "Too many failed attempts. Please try again later.",
    "auth/network-request-failed" := "Network error. Check your connection.",
    "auth/popup-closed-by-user" := "Sign-in was cancelled.",
    "auth/popup-blocked" := "Pop-up was blocked. Please allow pop-ups for this site."
  ]

  /** `getErrorMessage(code)`: the table's message, or the generic one for any other code or none. */
  function ErrorMessage(code: Option<string>): (r: string)
    ensures r != ""
    ensures code.Some? && code.value in Messages ==> r == Messages[code.value]
    ensures code.None? || code.value !in Messages ==> r == Generic
  {
    match code
    case Some(c) =>
      if c in Messages then
        assert Messages[c] != "" by { TableMessages(); }
        Messages[c]
      else Generic
    case None => Generic
  }

  /** Every message of the table is non-empty and differs from the generic one. */
  lemma TableMessages()
    ensures forall c :: c in Messages ==> Messages[c] != "" && Messages[c] != Generic
  {
  }

  /** The generic message comes back exactly for a missing or unknown code. */
  lemma GenericIffUnknown(code: Option<string>)
    ensures ErrorMessage(code) == Generic <==> code.None? || code.value !in Messages
  {
    TableMessages();
  }

  /** Each listed code gets its own message: two known codes with one message are the same code. */
  lemma KnownMessagesDistinct(a: string, b: string)
    requires a in Messages && b in Messages
    requires ErrorMessage(Some(a)) == ErrorMessage(Some(b))
    ensures a == b
  {
  }

  /** A failed SDK call becomes `{ error: getErrorMessage(error.code) }`. */
  function Failure(code: Option<string>): (r: AuthResult)
    ensures r.Failed? && r.error == ErrorMessage(code) && r.error != ""
  {
    Failed(ErrorMessage(code))
  }

  /** `signInWithGoogle` and `signInWithEmail`: the user, or the error message; never a throw. */
  function SignIn(call: Call<User>): (r: AuthResult)
    ensures r.SignedIn? <==> call.Ok?
    ensures call.Ok? ==> r == SignedIn(call.value)
    ensures call.Threw? ==> r == Failure(call.code)
  {
    match call
    case Ok(u) => SignedIn(u)
    case Threw(c) => Failure(c)
  }

  /** `resetPassword` and `signOut`: `{ success: true }`, or the error message. */
  function Succeed(call: Call<()>): (r: AuthResult)
    ensures r == Done <==> call.Ok?
    ensures call.Threw? ==> r == Failure(call.code)
  {
    match call
    case Ok(_) => Done
    case Threw(c) => Failure(c)
  }

  /** The result of `signUpWithEmail`, and the name `updateProfile` was called with, if it was. */
  datatype SignUpOutcome = SignUpOutcome(result: AuthResult, profileName: Option<string>)

  /**
    `signUpWithEmail(email, password, displayName)`: create the account, then
    set its display name when one was given; a throw from either call becomes
    the error result.
   */
  function SignUp(displayName: string, created: Call<User>, profile: Call<()>): (o: SignUpOutcome)
    ensures o.profileName.Some? <==> created.Ok? && displayName != ""
    ensures o.profileName.Some? ==> o.profileName.value == displayName
    ensures created.Threw? ==> o.result == Failure(created.code)
    ensures created.Ok? && displayName != "" && profile.Threw? ==> o.result == Failure(profile.code)
    ensures o.result.SignedIn? <==> created.Ok? && (displayName == "" || profile.Ok?)
    ensures o.result.SignedIn? ==> o.result.user == created.value
  {
    match created
    case Threw(c) => SignUpOutcome(Failure(c), None)
    case Ok(u) =>
      if displayName == "" then SignUpOutcome(SignedIn(u), None)
      else match profile
        case Ok(_) => SignUpOutcome(SignedIn(u), Some(displayName))
        case Threw(c) => SignUpOutcome(Failure(c), Some(displayName))
  }

  /** Without a name the profile call's outcome never matters. */
  lemma SignUpWithoutName(created: Call<User>, p: Call<()>, q: Call<()>)
    ensures SignUp("", created, p) == SignUp("", created, q)
    ensures SignUp("", created, p).result == SignIn(created)
  {
  }

  /** Every wrapper result carries an error exactly when it failed, and then a non-empty one. */
  lemma ErrorIffFailed(call: Call<User>, plain: Call<()>)
    ensures ErrorOf(SignIn(call)) != "" <==> call.Threw?
    ensures ErrorOf(Succeed(plain)) != "" <==> plain.Threw?
  {
  }

  /** The members the context's value provides. */
  const ContextMembers: set<string> :=
    {"user", "loading", "signInWithGoogle", "signInWithEmail", "signUpWithEmail", "resetPassword", "signOut"}
}
