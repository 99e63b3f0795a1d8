/** The session store: who is signed in, and how a sign-in reply from the authentication
    service becomes the result the login dialog shows. */
module Auth {
  import opened Records

  datatype User = User(id: string, email: string)

  /** What `signInWithPassword` did: threw (with the message of an Error, or something that
      is not an Error), or replied with an optional error message and an optional user. */
  datatype SignInReply =
    | Threw(errorMessage: Option<string>)
    | Replied(error: Option<string>, user: Option<User>)

  datatype ErrorType = EmailNotConfirmed | InvalidCredentials

  datatype LoginResult = LoginResult(success: bool, error: Option<string>, errorType: Option<ErrorType>)

  const NotConfirmedReply := "Email not confirmed"
  const BadCredentialsReply := "Invalid login credentials"
  const NotConfirmedText := "Please check your email and click the confirmation link before signing in."
  const BadCredentialsText := "Invalid email or password. Please check your credentials and try again."
  const GenericFailureText := "Login failed. Please check your credentials."
  const NoUserText := "Login failed. No user data received."
  const UnexpectedText := "An unexpected error occurred during login."

  /** The result `login` returns for a reply. */
  function Outcome(reply: SignInReply): (r: LoginResult)
    ensures r.success <==> reply.Replied? && reply.error.None? && reply.user.Some?
    ensures r.success ==> r.error.None? && r.errorType.None?
    ensures !r.success ==> r.error.Some?
    ensures r.errorType == Some(EmailNotConfirmed) <==> reply.Replied? && reply.error == Some(NotConfirmedReply)
    ensures r.errorType == Some(InvalidCredentials) <==> reply.Replied? && reply.error == Some(BadCredentialsReply)
    ensures reply.Replied? && reply.error.Some? && r.errorType.None? && reply.error.value != "" ==> r.error == reply.error
    ensures reply.Threw? && reply.errorMessage.Some? ==> r.error == reply.errorMessage && r.errorType.None?
    ensures reply == Threw(None) ==> r == LoginResult(false, Some(UnexpectedText), None)
    ensures reply.Replied? && reply.error == Some(NotConfirmedReply) ==> r.error == Some(NotConfirmedText)
    ensures reply.Replied? && reply.error == Some(BadCredentialsReply) ==> r.error == Some(BadCredentialsText)
    ensures reply.Replied? && reply.error == Some("") ==> r == LoginResult(false, Some(GenericFailureText), None)
    ensures reply == Replied(None, None) ==> r == LoginResult(false, Some(NoUserText), None)
  {
    match reply
    case Threw(m) => LoginResult(false, Some(if m.Some? then m.value else UnexpectedText), None)
    case Replied(error, user) =>
      if error.Some? then
        if error.value == NotConfirmedReply then LoginResult(false, Some(NotConfirmedText), Some(EmailNotConfirmed))
        else if error.value == BadCredentialsReply then LoginResult(false, Some(BadCredentialsText), Some(InvalidCredentials))
        else LoginResult(false, Some(if error.value != "" then error.value else GenericFailureText), None)
      else if user.Some? then LoginResult(true, None, None)
      else LoginResult(false, Some(NoUserText), None)
  }

  class AuthStore {
    var user: Option<User>
    var isAuthenticated: bool
    var isLoading: bool

    /** The store only ever claims a session for a known user. */
    predicate Valid()
      reads this
    {
      isAuthenticated <==> user.Some?
    }

    constructor ()
      ensures Valid() && user == None && !isAuthenticated && !isLoading
    {
      user := None;
      isAuthenticated := false;
      isLoading := false;
    }

    /** `login`: only a reply with a user and no error signs in. */
    method Login(reply: SignInReply) returns (result: LoginResult)
      requires Valid()
      modifies this`user, this`isAuthenticated
      ensures Valid()
      ensures result == Outcome(reply)
      ensures result.success ==> user == reply.user && isAuthenticated
      ensures !result.success ==> user == old(user) && isAuthenticated == old(isAuthenticated)
    {
      result := Outcome(reply);
      if result.success {
        user := reply.user;
        isAuthenticated := true;
      }
    }

    /** `logout`: the session is cleared unless `signOut` threw. */
    method Logout(threw: bool)
      requires Valid()
      modifies this`user, this`isAuthenticated
      ensures Valid()
      ensures threw ==> user == old(user) && isAuthenticated == old(isAuthenticated)
      ensures !threw ==> user == None && !isAuthenticated
    {
      if !threw {
        user := None;
        isAuthenticated := false;
      }
    }

    /** `setUser`, as the session listener calls it. */
    method SetUser(u: Option<User>)
      modifies this
      ensures Valid()
      ensures user == u && !isLoading
    {
      user := u;
      isAuthenticated := u.Some?;
      isLoading := false;
    }

    method SetLoading(loading: bool)
      modifies this`isLoading
      ensures isLoading == loading
    {
      isLoading := loading;
    }
  }
}
