/**
 * The "Create account" page: a form whose Submit button is enabled once
 * the required fields are filled, and whose handler checks the email, the
 * password length and the confirmation, in that order, before posting.
 * Whether the email matches the page's regular expression is an input.
 */
module SignUp {
  import opened Seqs
  import opened Phone

  /** The first check that fails, in the order the handler runs them. */
  datatype SignUpError = InvalidEmail | ShortPassword | PasswordsDiffer

  const MinPasswordLength: nat := 8

  function SignUpCheck(emailValid: bool, password: string, confirmation: string): (e: Option<SignUpError>)
    ensures e.None? <==> emailValid && |password| >= MinPasswordLength && password == confirmation
    ensures e == Some(InvalidEmail) <==> !emailValid
    ensures e == Some(ShortPassword) <==> emailValid && |password| < MinPasswordLength
    ensures e == Some(PasswordsDiffer) <==> emailValid && |password| >= MinPasswordLength && password != confirmation
  {
    if !emailValid then Some(InvalidEmail)
    else if |password| < MinPasswordLength then Some(ShortPassword)
    else if password != confirmation then Some(PasswordsDiffer)
    else None
  }

  /** The text shown for each error; the two password errors share one field. */
  function Message(e: SignUpError): (m: string)
    ensures e == InvalidEmail ==> m == "Please enter a valid email"
    ensures e == ShortPassword ==> m == "Password must be at least 8 characters"
    ensures e == PasswordsDiffer ==> m == "Passwords must match"
  {
    match e
    case InvalidEmail => "Please enter a valid email"
    case ShortPassword => "Password must be at least 8 characters"
    case PasswordsDiffer => "Passwords must match"
  }

  /** The body posted to `/api/signup`. */
  datatype SignUpRequest = SignUpRequest(
    email: string, firstName: string, lastName: string, gender: string, rating: string,
    phone: string, address: string, password: string, passwordConfirmation: string)

  /** How the request ended: a user came back, the answer had none, or the request threw. */
  datatype SignUpResponse = UserCreated | NoUser | Threw

  class SignUpForm {
    var loading: bool
    var firstName: string
    var lastName: string
    var phone: string
    var email: string
    var address: string
    var gender: string
    var rating: string
    var password: string
    var passwordConfirmation: string
    var emailError: string
    var passwordError: string

    constructor()
      ensures !loading && email == "" && password == "" && passwordConfirmation == ""
      ensures firstName == "" && lastName == "" && phone == "" && address == "" && gender == "" && rating == ""
      ensures emailError == "" && passwordError == ""
    {
      loading := false;
      firstName := "";
      lastName := "";
      phone := "";
      email := "";
      address := "";
      gender := "";
      rating := "";
      password := "";
      passwordConfirmation := "";
      emailError := "";
      passwordError := "";
    }

    /**
     * `isDisabled`: while a request is running or while any required field
     * is empty; the first and last names are not required.
     */
    predicate IsDisabled()
      reads this
    {
      loading || email == [] || password == [] || passwordConfirmation == [] ||
      address == [] || phone == [] || gender == [] || rating == []
    }

    /** The fields the handler posts, as the request it would send now. */
    function Request(): SignUpRequest
      reads this
    {
      SignUpRequest(email, firstName, lastName, gender, rating, phone, address, password, passwordConfirmation)
    }

    /** The email field: editing it clears the email error. */
    method EditEmail(value: string)
      modifies this
      ensures Request() == old(Request()).(email := value)
      ensures emailError == "" && passwordError == old(passwordError) && loading == old(loading)
    {
      if emailError != "" {
        emailError := "";
      }
      email := value;
    }

    /** The password field: editing it clears the password error. */
    method EditPassword(value: string)
      modifies this
      ensures Request() == old(Request()).(password := value)
      ensures passwordError == "" && emailError == old(emailError) && loading == old(loading)
    {
      if passwordError != "" {
        passwordError := "";
      }
      password := value;
    }

    /** The confirmation field clears the same password error. */
    method EditConfirmation(value: string)
      modifies this
      ensures Request() == old(Request()).(passwordConfirmation := value)
      ensures passwordError == "" && emailError == old(emailError) && loading == old(loading)
    {
      if passwordError != "" {
        passwordError := "";
      }
      passwordConfirmation := value;
    }

    /** The phone field stores the formatted value of what was typed. */
    method EditPhone(typed: string)
      modifies this
      ensures Request() == old(Request()).(phone := PhoneFormat(typed)) && |phone| <= MaxLength
      ensures emailError == old(emailError) && passwordError == old(passwordError) && loading == old(loading)
    {
      phone := FormatPhone(typed);
    }

    /**
     * `handleSignUp`: the first failing check sets its error and stops with
     * no request; otherwise `loading` is set and the form is posted. Loading
     * ends when a user comes back or the request throws, and stays on when
     * the answer has no user.
     */
    method HandleSignUp(emailValid: bool, response: SignUpResponse)
      returns (posted: Option<SignUpRequest>, redirect: Option<string>)
      modifies this
      ensures var e := SignUpCheck(emailValid, old(password), old(passwordConfirmation));
              e.Some? ==> posted.None? && redirect.None? && loading == old(loading) &&
                          (e.value == InvalidEmail ==> emailError == Message(e.value) && passwordError == old(passwordError)) &&
                          (e.value != InvalidEmail ==> passwordError == Message(e.value) && emailError == old(emailError))
      ensures var e := SignUpCheck(emailValid, old(password), old(passwordConfirmation));
              e.None? ==> posted == Some(old(Request())) && emailError == old(emailError) && passwordError == old(passwordError) &&
                          (redirect == Some("/login") <==> response == UserCreated) &&
                          (loading <==> response == NoUser) &&
                          (response == NoUser ==> IsDisabled())
      ensures Request() == old(Request())
    {
      posted := None;
      redirect := None;
      var check := SignUpCheck(emailValid, password, passwordConfirmation);
      if check == Some(InvalidEmail) {
        emailError := Message(InvalidEmail);
        return;
      }
      if check == Some(ShortPassword) {
        passwordError := Message(ShortPassword);
        return;
      }
      if check == Some(PasswordsDiffer) {
        passwordError := Message(PasswordsDiffer);
        return;
      }
      loading := true;
      posted := Some(Request());
      match response
      case UserCreated =>
        loading := false;
        redirect := Some("/login");
      case NoUser =>
      case Threw =>
        loading := false;
    }
  }
}
