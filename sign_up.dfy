/** The `SignUp` component (src/components/SignUp.js): its form state,
    `handleChange`, `validateForm` and `handleSubmit`, and how the form's
    checks relate to the server's `validateRegistration`. The HTTP request
    is recorded rather than sent, and its reply is a parameter. */
module SignUp {
  import opened Wrappers
  import opened JsString
  import Accounts

  datatype Field = Username | Email | Password | ConfirmPassword

  datatype FormData = FormData(username: string, email: string, password: string, confirmPassword: string)

  /** The body posted to `/api/register`. */
  datatype RegisterRequest = RegisterRequest(username: string, email: string, password: string)

  /** What `axios.post` gives back: a response whose `data.message` is
      `message`, or a failure whose `err.response?.data?.error` is
      `serverError` (`""` when the failure carried no error text). */
  datatype Reply = Responded(message: string) | Failed(serverError: string)

  const AllFieldsRequired := "All fields are required"
  const PasswordTooShort := "Password must be at least 6 characters long"
  const PasswordsDoNotMatch := "Passwords do not match"
  const InvalidEmailAddress := "Please enter a valid email address"
  const RegistrationFailed := "Registration failed. Please try again."
  const RegisteredMessage := "User registered successfully"
  const MinPasswordLength := 6

  function Get(d: FormData, f: Field): string {
    match f
    case Username => d.username
    case Email => d.email
    case Password => d.password
    case ConfirmPassword => d.confirmPassword
  }

  /** `{ ...userData, [name]: value }`: the named field takes the value and
      every other field keeps its own. */
  function With(d: FormData, f: Field, v: string): (r: FormData)
    ensures Get(r, f) == v
    ensures forall g :: g != f ==> Get(r, g) == Get(d, g)
  {
    match f
    case Username => d.(username := v)
    case Email => d.(email := v)
    case Password => d.(password := v)
    case ConfirmPassword => d.(confirmPassword := v)
  }

  predicate AnyEmpty(d: FormData) {
    d.username == [] || d.email == [] || d.password == [] || d.confirmPassword == []
  }

  /** `validateForm`: the message of the first failing check, in the order
      the component makes them, or `None` when the form may be sent. */
  function ValidateForm(d: FormData): (r: Option<string>)
    ensures r == Some(AllFieldsRequired) <==> AnyEmpty(d)
    ensures r == Some(PasswordTooShort) <==> !AnyEmpty(d) && Utf16Length(d.password) < MinPasswordLength
    ensures r == Some(PasswordsDoNotMatch) <==>
      !AnyEmpty(d) && Utf16Length(d.password) >= MinPasswordLength && d.password != d.confirmPassword
    ensures r == Some(InvalidEmailAddress) <==>
      !AnyEmpty(d) && Utf16Length(d.password) >= MinPasswordLength && d.password == d.confirmPassword
      && '@' !in d.email
    ensures r.None? <==>
      !AnyEmpty(d) && Utf16Length(d.password) >= MinPasswordLength && d.password == d.confirmPassword
      && '@' in d.email
  {
    if AnyEmpty(d) then Some(AllFieldsRequired)
    else if Utf16Length(d.password) < MinPasswordLength then Some(PasswordTooShort)
    else if d.password != d.confirmPassword then Some(PasswordsDoNotMatch)
    else if '@' !in d.email then Some(InvalidEmailAddress)
    else None
  }

  /** An email the server's pattern accepts contains `@`, so the form never
      refuses an email the server would take. */
  lemma ServerEmailHasAt(email: string)
    ensures Accounts.MatchesEmailPattern(email) ==> '@' in email
  {
    if Accounts.MatchesEmailPattern(email) {
      var at: nat, dot: nat :| at < |email| && dot < |email| && Accounts.EmailMatchAt(email, at, dot);
      assert email[at] == '@';
    }
  }

  /** A form the component accepts passes the server's field and length
      checks; only the server's stricter email pattern can still refuse it. */
  lemma AcceptedFormPassesServerChecks(d: FormData)
    requires ValidateForm(d).None?
    ensures Accounts.ValidateRegistration(d.username, d.email, d.password) in
      {None, Some(Accounts.InvalidEmailFormat)}
  {
  }

  /** The form's email check is weaker than the server's: `a@b` passes the
      form and is refused by the server. */
  lemma FormAcceptsWhatServerRefuses()
    ensures ValidateForm(FormData("user", "a@b", "secret", "secret")).None?
    ensures Accounts.ValidateRegistration("user", "a@b", "secret") == Some(Accounts.InvalidEmailFormat)
  {
    assert "a@b"[1] == '@';
    assert Utf16Length("secret") == 6;
  }

  /** The component's state. `sent` records the requests posted so far and
      `navigatedToLogin` whether `navigate('/login')` has run. */
  class SignUpForm {
    var userData: FormData
    var error: string
    var loading: bool
    var sent: seq<RegisterRequest>
    var navigatedToLogin: bool

    constructor ()
      ensures userData == FormData("", "", "", "") && error == "" && !loading
      ensures sent == [] && !navigatedToLogin
    {
      userData := FormData("", "", "", "");
      error := "";
      loading := false;
      sent := [];
      navigatedToLogin := false;
    }

    /** `handleChange`: one field takes the typed value and the error clears. */
    method HandleChange(f: Field, v: string)
      modifies this
      ensures userData == With(old(userData), f, v) && error == ""
      ensures loading == old(loading) && sent == old(sent) && navigatedToLogin == old(navigatedToLogin)
    {
      userData := With(userData, f, v);
      error := "";
    }

    /** `handleSubmit`. A form that fails validation shows its message and
        sends nothing; a valid form is posted once, a successful reply leads
        to the login page and a failed one shows the server's error or the
        fallback message. Either way `loading` ends false. */
    method HandleSubmit(reply: Reply)
      modifies this
      ensures userData == old(userData) && !loading
      ensures ValidateForm(userData).Some? ==>
        error == ValidateForm(userData).value && sent == old(sent) && navigatedToLogin == old(navigatedToLogin)
      ensures ValidateForm(userData).None? ==>
        sent == old(sent) + [RegisterRequest(userData.username, userData.email, userData.password)]
      ensures ValidateForm(userData).None? && reply.Responded? ==>
        error == "" && navigatedToLogin == (old(navigatedToLogin) || reply.message == RegisteredMessage)
      ensures ValidateForm(userData).None? && reply.Failed? ==>
        error == (if reply.serverError != "" then reply.serverError else RegistrationFailed)
        && navigatedToLogin == old(navigatedToLogin)
    {
      error := "";
      loading := true;
      var invalid := ValidateForm(userData);
      if invalid.Some? {
        error := invalid.value;
        loading := false;
        return;
      }
      sent := sent + [RegisterRequest(userData.username, userData.email, userData.password)];
      match reply {
        case Responded(message) =>
          if message == RegisteredMessage {
            navigatedToLogin := true;
          }
        case Failed(serverError) =>
          error := if serverError != "" then serverError else RegistrationFailed;
      }
      loading := false;
    }
  }
}
