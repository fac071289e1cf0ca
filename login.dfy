/**
 * The log-in page: Log In is enabled once both fields are filled; the
 * handler checks the email and the password length before signing in, and
 * shows the sign-in error, with a fixed text for invalid credentials.
 * Whether the email matches the page's regular expression is an input, and
 * the answer of the sign-in call is a parameter.
 */
module Login {
  import opened Seqs

  const InvalidEmailMessage: string := "Please enter a valid email address."
  const ShortPasswordMessage: string := "Password must be at least 8 characters long"
  const InvalidCredentialsMessage: string := "Failed to login — invalid credentials."

  /** What `signInWithPassword` answered: no error, or an error with its code and message. */
  datatype SignInAnswer = SignedIn | SignInError(code: string, message: string)

  /** The general error shown for a failed sign-in. */
  function ErrorText(code: string, message: string): (text: string)
    ensures code == "invalid_credentials" ==> text == InvalidCredentialsMessage
    ensures code != "invalid_credentials" ==> text == message
  {
    if code == "invalid_credentials" then InvalidCredentialsMessage else message
  }

  /** Where the handler stopped. */
  datatype LoginOutcome =
    | EmailRejected          // the email check failed; no sign-in
    | PasswordRejected       // the password was too short; no sign-in
    | Failed                 // sign-in answered with an error
    | LoggedIn               // success notification, then `/member/home`

  class LoginForm {
    var email: string
    var password: string
    var emailError: string
    var passwordError: string
    var error: string

    constructor()
      ensures email == "" && password == "" && emailError == "" && passwordError == "" && error == ""
    {
      email := "";
      password := "";
      emailError := "";
      passwordError := "";
      error := "";
    }

    /** `isDisabled`. */
    predicate IsDisabled()
      reads this
    {
      email == [] || password == []
    }

    /** The email field: editing clears the email error and the general error. */
    method EditEmail(value: string)
      modifies this
      ensures email == value && emailError == "" && error == ""
      ensures password == old(password) && passwordError == old(passwordError)
    {
      if emailError != "" { emailError := ""; }
      if error != "" { error := ""; }
      email := value;
    }

    /** The password field: editing clears the password error and the general error. */
    method EditPassword(value: string)
      modifies this
      ensures password == value && passwordError == "" && error == ""
      ensures email == old(email) && emailError == old(emailError)
    {
      if passwordError != "" { passwordError := ""; }
      if error != "" { error := ""; }
      password := value;
    }

    /**
     * `handleLogin`: an invalid email sets only the email error, a short
     * password only the password error, and neither signs in; otherwise the
     * sign-in answer decides between the general error and logging in.
     */
    method HandleLogin(emailValid: bool, answer: SignInAnswer) returns (outcome: LoginOutcome)
      modifies this
      ensures email == old(email) && password == old(password)
      ensures !emailValid ==> outcome == EmailRejected && emailError == InvalidEmailMessage &&
                              passwordError == old(passwordError) && error == old(error)
      ensures emailValid && |old(password)| < 8 ==>
                outcome == PasswordRejected && passwordError == ShortPasswordMessage &&
                emailError == old(emailError) && error == old(error)
      ensures emailValid && |old(password)| >= 8 ==>
                emailError == old(emailError) && passwordError == old(passwordError) &&
                (answer.SignedIn? ==> outcome == LoggedIn && error == old(error)) &&
                (answer.SignInError? ==> outcome == Failed && error == ErrorText(answer.code, answer.message))
    {
      if !emailValid {
        emailError := InvalidEmailMessage;
        return EmailRejected;
      }
      if |password| < 8 {
        passwordError := ShortPasswordMessage;
        return PasswordRejected;
      }
      match answer
      case SignInError(code, message) =>
        error := ErrorText(code, message);
        outcome := Failed;
      case SignedIn =>
        outcome := LoggedIn;
    }
  }
}
