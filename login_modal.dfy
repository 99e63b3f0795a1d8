/** The admin login dialog: its two fields, their checks, and the banner a failed sign-in
    leaves behind. */
module Login {
  import opened Text
  import opened Records
  import opened Validators
  import opened Auth

  datatype LoginField = EmailField | PasswordField

  /** The general message set after a failed sign-in: `result.error || 'Login failed'`. */
  function GeneralText(result: LoginResult): (t: string)
    ensures t != ""
    ensures result.error.Some? && result.error.value != "" ==> t == result.error.value
  {
    if result.error.Some? && result.error.value != "" then result.error.value else "Login failed"
  }

  datatype Banner =
    | NoBanner
    | ConfirmEmail(text: string)
    | LoginFailed(text: string, adminHint: bool)

  /** `renderErrorMessage`: nothing without a general message; the amber confirmation banner
      for an unconfirmed email; otherwise the red banner, with the admin-account hint for
      bad credentials. */
  function ShownBanner(general: Option<string>, errorType: Option<ErrorType>): (b: Banner)
    ensures b == NoBanner <==> general.None? || general.value == ""
    ensures b.ConfirmEmail? <==> b != NoBanner && errorType == Some(EmailNotConfirmed)
    ensures b.LoginFailed? ==> b.adminHint == (errorType == Some(InvalidCredentials))
    ensures b != NoBanner ==> b.text == general.value
  {
    if general.None? || general.value == "" then NoBanner
    else if errorType == Some(EmailNotConfirmed) then ConfirmEmail(general.value)
    else LoginFailed(general.value, errorType == Some(InvalidCredentials))
  }

  /** What a failed sign-in shows, by the service's reply: the confirmation steps exactly for
      an unconfirmed email, and the admin hint exactly for bad credentials. */
  lemma BannerForReply(reply: SignInReply)
    requires !Outcome(reply).success
    ensures var b := ShownBanner(Some(GeneralText(Outcome(reply))), Outcome(reply).errorType);
      && (b.ConfirmEmail? <==> reply.Replied? && reply.error == Some(NotConfirmedReply))
      && (b.LoginFailed? && b.adminHint <==> reply.Replied? && reply.error == Some(BadCredentialsReply))
      && b != NoBanner
  {
  }

  class LoginModal {
    var email: string
    var password: string
    var emailError: Option<Message>
    var passwordRequired: bool
    var general: Option<string>
    var errorType: Option<ErrorType>

    constructor ()
      ensures email == "" && password == "" && emailError == None && !passwordRequired
      ensures general == None && errorType == None
    {
      email := "";
      password := "";
      emailError := None;
      passwordRequired := false;
      general := None;
      errorType := None;
    }

    /** `validateForm`: the e-mail check of the member form and a required password; the fresh
        error object also drops any general message. */
    method ValidateForm() returns (isValid: bool)
      modifies this`emailError, this`passwordRequired, this`general, this`errorType
      ensures isValid <==> EmailRegex(email) && !AllWs(password)
      ensures emailError == EmailError(email) && passwordRequired == AllWs(password)
      ensures general == None && errorType == None
    {
      emailError := EmailError(email);
      passwordRequired := AllWs(password);
      general := None;
      errorType := None;
      isValid := emailError.None? && !passwordRequired;
    }

    /** `handleChange`: store the value, clear that field's error, and clear the general
        message along with its type. */
    method HandleChange(field: LoginField, value: string)
      modifies this
      ensures field == EmailField ==> email == value && password == old(password) && emailError == None && passwordRequired == old(passwordRequired)
      ensures field == PasswordField ==> password == value && email == old(email) && !passwordRequired && emailError == old(emailError)
      ensures old(general).Some? ==> general == None && errorType == None
      ensures old(general).None? ==> general == None && errorType == old(errorType)
    {
      if field == EmailField {
        email := value;
        emailError := None;
      } else {
        password := value;
        passwordRequired := false;
      }
      if general.Some? {
        general := None;
        errorType := None;
      }
    }

    /** `handleSubmit`: nothing happens without a configured store client or with invalid
        fields; otherwise the sign-in runs and a failure leaves its message and type behind.
        The result tells whether the dialog closes. */
    method HandleSubmit(connected: bool, store: AuthStore, reply: SignInReply) returns (closed: bool)
      requires store.Valid()
      modifies this, store`user, store`isAuthenticated
      ensures store.Valid()
      ensures closed <==> connected && EmailRegex(email) && !AllWs(password) && Outcome(reply).success
      ensures closed ==> store.isAuthenticated && store.user == reply.user
      ensures !closed ==> store.user == old(store.user) && store.isAuthenticated == old(store.isAuthenticated)
      ensures connected && EmailRegex(email) && !AllWs(password) && !closed ==>
        general == Some(GeneralText(Outcome(reply))) && errorType == Outcome(reply).errorType
      ensures email == old(email) && password == old(password)
      ensures !connected ==>
        emailError == old(emailError) && passwordRequired == old(passwordRequired)
        && general == old(general) && errorType == old(errorType)
      ensures connected ==> emailError == EmailError(email) && passwordRequired == AllWs(password)
      ensures connected && !(EmailRegex(email) && !AllWs(password)) ==> general == None && errorType == None
      ensures closed ==> general == None && errorType == None
    {
      closed := false;
      if !connected {
        return;
      }
      var ok := ValidateForm();
      if !ok {
        return;
      }
      general := None;
      errorType := None;
      var result := store.Login(reply);
      if result.success {
        closed := true;
      } else {
        general := Some(GeneralText(result));
        errorType := result.errorType;
      }
    }
  }
}
